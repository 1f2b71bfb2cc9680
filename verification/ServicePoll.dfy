/**
 The wait of njord_control_service: poll a service until it reaches the expected state,
 or until it makes no progress for as long as its own wait hint.

 The service manager and the clock are an environment: what the n-th query reports, and
 the real time, in milliseconds, at which the n-th turn of the loop reads the tick
 counter. Query 0 is the one before the loop, time 0 the reading before it.
 */
module ServicePoll {
  import opened Words

  datatype Status = Status(state: Word, checkPoint: Word, waitHint: Word)

  datatype Environment = Environment(query: nat -> Status, time: nat -> nat)

  /** GetTickCount at turn n. */
  function Tick(env: Environment, n: nat): Word {
    Wrap(env.time(n))
  }

  /** A tenth of the wait hint, but a second at least and ten at most. */
  predicate AskedFor(hint: Word, ms: nat) {
    && 1000 <= ms <= 10000
    && (ms > 1000 ==> 10 * ms <= hint)
    && (ms < 10000 ==> hint < 10 * ms + 10)
  }

  /** How long a turn sleeps. */
  function WaitTime(s: Status): (ms: nat)
    ensures AskedFor(s.waitHint, ms)
  {
    var waitTime := s.waitHint / 10;
    if waitTime < 1000 then 1000 else if waitTime > 10000 then 10000 else waitTime
  }

  /** The checkpoint has risen since the query before. */
  predicate Progress(env: Environment, n: nat)
    requires 0 < n
  {
    env.query(n).checkPoint > env.query(n - 1).checkPoint
  }

  /** How often the checkpoint rises in the first n queries. */
  function Rises(env: Environment, n: nat): nat {
    if n == 0 then 0 else Rises(env, n - 1) + if Progress(env, n) then 1 else 0
  }

  /** The real time since which the service has made no progress, after n turns. */
  function Since(env: Environment, n: nat): nat {
    if n == 0 then env.time(0) else if Progress(env, n) then env.time(n) else Since(env, n - 1)
  }

  /** Turn n is the last one: the service has had its own wait hint and made no progress. */
  predicate GivesUp(env: Environment, n: nat) {
    n > 0 && !Progress(env, n) && env.time(n) - Since(env, n) > env.query(n).waitHint
  }

  /** After n turns the loop is left: the state is reached, or the service has had its time. */
  predicate Ends(env: Environment, expected: Word, n: nat) {
    env.query(n).state == expected || GivesUp(env, n)
  }

  predicate SleptEnough(env: Environment, n: nat) {
    env.time(n + 1) >= env.time(n) + WaitTime(env.query(n))
  }

  /** Sleep lasts at least as long as asked. */
  ghost predicate SleepsLongEnough(env: Environment) {
    forall n: nat :: SleptEnough(env, n)
  }

  /** The checkpoint rises at most rises times, and no wait hint is above hint. */
  ghost predicate Bounded(env: Environment, rises: nat, hint: nat) {
    && (forall n: nat :: Rises(env, n) <= rises)
    && (forall n: nat :: env.query(n).waitHint <= hint)
  }

  /** The loop gets as far as turn n. */
  predicate Runs(env: Environment, expected: Word, n: nat) {
    n == 0 || (Runs(env, expected, n - 1) && !Ends(env, expected, n - 1))
  }

  /** While the loop runs, the time without progress stays below one round of the tick counter. */
  ghost predicate NoLostRound(env: Environment, expected: Word) {
    forall n: nat :: Runs(env, expected, n + 1) ==> env.time(n + 1) - Since(env, n) < WORD
  }

  // ------------------------------------------- the same without names for the steps

  /** Query k is the last of the first n at which the checkpoint is higher than at the one before; 0 if there is none. */
  ghost predicate LastRise(env: Environment, n: nat, k: nat) {
    && k <= n
    && (k > 0 ==> env.query(k).checkPoint > env.query(k - 1).checkPoint)
    && forall m | k < m <= n :: env.query(m).checkPoint <= env.query(m - 1).checkPoint
  }

  /** The time counted is that since the last rise: a checkpoint that stays or falls is no progress. */
  lemma {:induction false} SinceLastRise(env: Environment, n: nat, k: nat)
    requires LastRise(env, n, k)
    ensures Since(env, n) == env.time(k) && (n > 0 ==> (Progress(env, n) <==> k == n))
  {
    if k < n {
      SinceLastRise(env, n - 1, k);
    }
  }

  /** After n turns the loop is left: in the state expected, or with the wait hint overrun since the last rise. */
  predicate LeavesAt(env: Environment, expected: Word, n: nat, k: nat) {
    env.query(n).state == expected || (k < n && env.time(n) - env.time(k) > env.query(n).waitHint)
  }

  lemma EndsIs(env: Environment, expected: Word, n: nat, k: nat)
    requires LastRise(env, n, k)
    ensures Ends(env, expected, n) <==> LeavesAt(env, expected, n, k)
  {
    SinceLastRise(env, n, k);
  }

  lemma {:induction false} RunsIs(env: Environment, expected: Word, n: nat)
    ensures Runs(env, expected, n) <==> forall m | 0 <= m < n :: !Ends(env, expected, m)
  {
    if n > 0 {
      RunsIs(env, expected, n - 1);
    }
  }

  /** The turn at which the loop is left is the first at which it has reason to. */
  lemma FirstEnd(env: Environment, expected: Word, turns: nat)
    requires Runs(env, expected, turns) && Ends(env, expected, turns)
    ensures forall k: nat | LastRise(env, turns, k) :: LeavesAt(env, expected, turns, k)
    ensures forall n: nat, k: nat | n < turns && LastRise(env, n, k) :: !LeavesAt(env, expected, n, k)
  {
    RunsIs(env, expected, turns);
    forall n: nat, k: nat | n <= turns && LastRise(env, n, k)
      ensures LeavesAt(env, expected, n, k) <==> n == turns
    {
      EndsIs(env, expected, n, k);
    }
  }

  /** The turns the loop can take while the checkpoint rises r times. */
  ghost function TurnBound(r: nat, hint: nat): nat {
    if r == 0 then 0 else TurnBound(r - 1, hint) + hint / 1000 + 1
  }

  lemma {:induction false} TurnBoundIs(r: nat, hint: nat)
    ensures TurnBound(r, hint) == r * (hint / 1000 + 1)
  {
    if r != 0 {
      TurnBoundIs(r - 1, hint);
      MulDistrib(r - 1, 1, hint / 1000 + 1);
    }
  }

  lemma {:induction false} BoundMono(r: nat, rises: nat, hint: nat)
    requires r <= rises
    ensures TurnBound(r, hint) <= TurnBound(rises, hint)
  {
    if r < rises {
      BoundMono(r, rises - 1, hint);
    }
  }

  /** The unsigned difference of two tick counts is the time between them, if that is less than 2^32 ms. */
  lemma TickDifference(start: nat, now: nat)
    requires start <= now < start + WORD
    ensures Wrap(Wrap(now) - Wrap(start)) == now - start
  {
    var q, q' := start / WORD, now / WORD;
    assert now - start == (q' - q) * WORD + (Wrap(now) - Wrap(start));
    var d := Wrap(now) - Wrap(start);
    WrapOnce(d);
    assert q' - q == if d < 0 then 1 else 0;
  }

  /** The loop goes on after n turns, quiet of them since the last progress. */
  ghost predicate Waiting(env: Environment, n: nat, quiet: nat, hint: nat) {
    && !GivesUp(env, n)
    && 1000 * quiet <= env.time(n) - Since(env, n) <= hint
    && n <= TurnBound(Rises(env, n), hint) + quiet
  }

  /** A turn with progress starts the count anew; the tick counts of one without tell whether it is the last. */
  lemma OneTurn(env: Environment, expected: Word, n: nat, quiet: nat, rises: nat, hint: nat)
    requires SleepsLongEnough(env) && Bounded(env, rises, hint) && NoLostRound(env, expected)
    requires Waiting(env, n, quiet, hint) && Runs(env, expected, n + 1)
    ensures n + 1 <= TurnBound(rises + 1, hint)
    ensures Progress(env, n + 1) ==> Waiting(env, n + 1, 0, hint)
    ensures !Progress(env, n + 1) ==> Since(env, n + 1) == Since(env, n) <= env.time(n + 1) < Since(env, n) + WORD
    ensures !Progress(env, n + 1) ==>
              (Wrap(Tick(env, n + 1) - Wrap(Since(env, n))) > env.query(n + 1).waitHint <==> GivesUp(env, n + 1))
    ensures !Progress(env, n + 1) && !GivesUp(env, n + 1) ==> Waiting(env, n + 1, quiet + 1, hint)
  {
    BoundMono(Rises(env, n), rises, hint);
    assert SleptEnough(env, n);
    assert env.time(n + 1) - Since(env, n) < WORD;
    assert env.query(n + 1).waitHint <= hint;
    TickDifference(Since(env, n), env.time(n + 1));
  }

  /**
   The loop. It leaves at the first turn at which the state is reached or the service has
   had its time, counted in real time although the code compares wrapping tick counts; and
   that is within TurnBound(rises + 1, hint) turns. The result is whether one more query finds the state.
   */
  method WaitForState(env: Environment, expected: Word, ghost rises: nat, ghost hint: nat)
    returns (reached: bool, turns: nat, sleeps: seq<nat>)
    requires SleepsLongEnough(env) && Bounded(env, rises, hint) && NoLostRound(env, expected)
    ensures Runs(env, expected, turns) && Ends(env, expected, turns)
    ensures forall k: nat | LastRise(env, turns, k) :: LeavesAt(env, expected, turns, k)
    ensures forall n: nat, k: nat | n < turns && LastRise(env, n, k) :: !LeavesAt(env, expected, n, k)
    ensures |sleeps| == turns && forall i | 0 <= i < turns :: AskedFor(env.query(i).waitHint, sleeps[i])
    ensures turns <= TurnBound(rises + 1, hint)
    ensures reached <==> env.query(turns + 1).state == expected
  {
    var curStatus := env.query(0);
    var startTickCount := Tick(env, 0);
    turns, sleeps := 0, [];
    ghost var quiet := 0;
    while curStatus.state != expected
      invariant curStatus == env.query(turns) && Waiting(env, turns, quiet, hint)
      invariant Runs(env, expected, turns)
      invariant |sleeps| == turns && forall i | 0 <= i < turns :: AskedFor(env.query(i).waitHint, sleeps[i])
      invariant startTickCount == Wrap(Since(env, turns))
      invariant turns <= TurnBound(rises + 1, hint)
      decreases TurnBound(rises + 1, hint) - turns
    {
      OneTurn(env, expected, turns, quiet, rises, hint);
      var oldCheckPoint := curStatus.checkPoint;
      // Sleep: the environment lets that much time pass.
      sleeps := sleeps + [WaitTime(curStatus)];
      turns := turns + 1;
      curStatus := env.query(turns);
      if curStatus.checkPoint > oldCheckPoint {
        startTickCount := Tick(env, turns);
        quiet := 0;
      } else {
        if Wrap(Tick(env, turns) - startTickCount) > curStatus.waitHint {
          break;
        }
        quiet := quiet + 1;
      }
    }
    FirstEnd(env, expected, turns);
    curStatus := env.query(turns + 1);
    reached := curStatus.state == expected;
  }
}
