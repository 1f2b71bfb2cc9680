/**
 The bump allocator of plarena.h on 32-bit words: the paths that stay in the current
 arena. The pool-level routines behind the slow paths are not part of this model; where
 a macro calls one of them, the result here is None and the arena is left alone.
 */
module Arena {
  import opened Options
  import opened Words

  /** A block handed out: what was asked for, and the aligned space set aside for it. */
  datatype Block = Block(start: Word, size: nat, room: nat) {
    function End(): int {
      start + room
    }
  }

  /** An arena and the blocks in it that are still in use. */
  datatype State = State(base: Word, limit: Word, avail: Word, live: seq<Block>)

  /** PL_ARENA_ALIGN. */
  function Align(mask: Word, n: nat): Word {
    var x := Wrap(n + mask);
    AndBelow(x, WORD - 1 - mask);
    BitAnd(x, WORD - 1 - mask)
  }

  lemma AndBelow(x: Word, y: Word)
    ensures 0 <= BitAnd(x, y) < WORD
  {
    Pow2Word();
    BitOpsBounded(x, y, 32);
  }

  // --------------------------------------------------------------------- alignment

  /** The mask of a power-of-two alignment p. */
  ghost predicate IsMask(mask: Word, k: nat, p: int) {
    k < 32 && p == Pow2(k) && mask == p - 1
  }

  /** Rounding up, unless the sum wraps; then the result is zero. */
  lemma AlignIs(mask: Word, k: nat, p: int, n: nat)
    requires IsMask(mask, k, p) && n < WORD
    ensures n + mask < WORD ==> Align(mask, n) == n + mask - (n + mask) % p
    ensures n + mask >= WORD ==> Align(mask, n) == 0
  {
    var x := Wrap(n + mask);
    WrapOnce(n + mask);
    MaskedOut(mask, k, p, x);
    if n + mask >= WORD {
      ModSmall(x, p);
    }
  }

  lemma MaskedOut(mask: Word, k: nat, p: int, x: Word)
    requires IsMask(mask, k, p)
    ensures BitAnd(x, WORD - 1 - mask) == x - x % p
  {
    assert BitAnd(x, WORD - 1 - mask) + BitAnd(x, mask) == x by {
      Pow2Word();
      AndComplement(x, mask, 32);
    }
    assert BitAnd(x, mask) == x % p by { AndLowMask(x, k); }
  }

  lemma MultipleGap(a: int, b: int, p: int)
    requires 1 <= p && a % p == 0 && b % p == 0 && a < b
    ensures a + p <= b
  {
    var x, y := a / p, b / p;
    assert a == p * x && b == p * y;
    if y <= x {
      MulMono(y, x, p);
    } else {
      MulMono(x + 1, y, p);
    }
  }

  lemma MultipleSum(a: int, b: int, p: int)
    requires 1 <= p && a % p == 0 && b % p == 0
    ensures (a + b) % p == 0
  {
    var x, y := a / p, b / p;
    assert a == x * p && b == y * p;
    MulDistrib(x, y, p);
    DivModUnique(a + b, p, x + y, 0);
  }

  /** The aligned size is the least multiple of the alignment that holds n bytes. */
  lemma AlignLeast(mask: Word, k: nat, p: int, n: nat)
    requires IsMask(mask, k, p) && n + mask < WORD
    ensures n <= Align(mask, n) < n + p && Align(mask, n) % p == 0
    ensures forall m | n <= m && m % p == 0 :: Align(mask, n) <= m
  {
    AlignIs(mask, k, p, n);
    RoundUp(n, p);
  }

  lemma RoundUp(n: nat, p: int)
    requires 1 <= p
    ensures var a := n + (p - 1) - (n + (p - 1)) % p;
            n <= a < n + p && a % p == 0 && forall m | n <= m && m % p == 0 :: a <= m
  {
    var x := n + (p - 1);
    var a := x - x % p;
    NatDivMod(x, p);
    DivModUnique(a, p, x / p, 0);
    forall m | n <= m && m % p == 0
      ensures a <= m
    {
      if m < a {
        MultipleGap(m, a, p);
      }
    }
  }

  /** Aligning a sum takes no more than aligning the parts. */
  lemma AlignSubadditive(mask: Word, k: nat, p: int, a: nat, b: nat)
    requires IsMask(mask, k, p) && a + b + mask < WORD
    ensures Align(mask, a + b) <= Align(mask, a) + Align(mask, b)
  {
    AlignLeast(mask, k, p, a);
    AlignLeast(mask, k, p, b);
    AlignLeast(mask, k, p, a + b);
    MultipleSum(Align(mask, a), Align(mask, b), p);
  }

  // ------------------------------------------------------- the macros, as functions

  /** PL_ARENA_ALLOCATE of nb bytes. */
  function AllocStep(mask: Word, a: State, nb: Word): Option<State> {
    var room := Align(mask, nb);
    var q := Wrap(a.avail + room);
    if q > a.limit then None
    else Some(a.(avail := q, live := a.live + [Block(a.avail, nb, room)]))
  }

  /** PL_ARENA_GROW of live block i by incr bytes. */
  function GrowStep(mask: Word, a: State, i: nat, incr: Word): Option<State> {
    if i >= |a.live| then None
    else
      var b := a.live[i];
      var more := Align(mask, incr);
      var q := Wrap(a.avail + more);
      if a.avail == Wrap(b.start + Align(mask, b.size)) && q <= a.limit then
        Some(a.(avail := q, live := a.live[i := Block(b.start, b.size + incr, b.room + more)]))
      else None
  }

  function Below(live: seq<Block>, mark: Word): seq<Block> {
    if live == [] then []
    else (if live[0].End() <= mark then [live[0]] else []) + Below(live[1..], mark)
  }

  /** PL_ARENA_RELEASE of a mark: the blocks beyond it are given up. */
  function ReleaseStep(mask: Word, a: State, mark: Word): Option<State> {
    if Wrap(mark - a.base) <= Wrap(a.avail - a.base) then
      Some(a.(avail := Align(mask, mark), live := Below(a.live, mark)))
    else None
  }

  // ------------------------------------------------------------------ the invariant

  ghost predicate Inside(mask: Word, a: State, b: Block) {
    && a.base <= b.start && b.End() <= a.avail
    && b.size + mask < WORD && b.size <= Align(mask, b.size) <= b.room
  }

  /** Two blocks share no byte. */
  predicate NoOverlap(b: Block, b': Block) {
    b.room == 0 || b'.room == 0 || b.End() <= b'.start || b'.End() <= b.start
  }

  predicate AllApart(live: seq<Block>) {
    forall i, j | 0 <= i < j < |live| :: NoOverlap(live[i], live[j])
  }

  ghost predicate Inv(mask: Word, k: nat, p: int, a: State) {
    && IsMask(mask, k, p)
    && a.base <= a.avail <= a.limit && a.base % p == 0 && a.avail % p == 0
    && (forall i | 0 <= i < |a.live| :: Inside(mask, a, a.live[i]))
    && AllApart(a.live)
  }

  /** No sum of the macro wraps around the address space. */
  predicate AllocFits(mask: Word, a: State, nb: Word) {
    nb + mask < WORD && a.avail + Align(mask, nb) < WORD
  }

  /**
   An allocation on the fast path hands out nb bytes inside the arena exactly when none
   of its sums wraps.
   */
  lemma AllocSound(mask: Word, k: nat, p: int, a: State, nb: Word)
    requires Inv(mask, k, p, a) && AllocStep(mask, a, nb).Some?
    ensures var b := Block(a.avail, nb, Align(mask, nb));
            (nb <= b.room && b.End() <= a.limit) <==> AllocFits(mask, a, nb)
  {
    AlignIs(mask, k, p, nb);
    WrapOnce(a.avail + Align(mask, nb));
    if nb + mask < WORD {
      AlignLeast(mask, k, p, nb);
    }
  }

  lemma AllocKeeps(mask: Word, k: nat, p: int, a: State, nb: Word)
    requires Inv(mask, k, p, a) && AllocStep(mask, a, nb).Some? && AllocFits(mask, a, nb)
    ensures Inv(mask, k, p, AllocStep(mask, a, nb).value)
  {
    AlignLeast(mask, k, p, nb);
    WrapOnce(a.avail + Align(mask, nb));
    MultipleSum(a.avail, Align(mask, nb), p);
  }

  predicate GrowFits(mask: Word, a: State, i: nat, incr: Word) {
    i < |a.live| && incr + mask < WORD && a.avail + Align(mask, incr) < WORD
  }

  /**
   A grow on the fast path leaves the block room for its new size, inside the arena,
   exactly when none of its sums wraps.
   */
  lemma GrowSound(mask: Word, k: nat, p: int, a: State, i: nat, incr: Word)
    requires Inv(mask, k, p, a) && GrowStep(mask, a, i, incr).Some?
    ensures var b, more := a.live[i], Align(mask, incr);
            (b.size + incr <= b.room + more && b.End() + more <= a.limit) <==> GrowFits(mask, a, i, incr)
  {
    var b := a.live[i];
    assert Inside(mask, a, b);
    WrapOnce(b.start + Align(mask, b.size));
    assert b.End() == a.avail && b.room == Align(mask, b.size);
    if GrowFits(mask, a, i, incr) {
      GrowTaken(mask, a, i, incr);
      GrownRoom(mask, k, p, b.size, incr, a.base, b.start, a.avail);
    } else {
      WrappedRoom(mask, k, p, b.size, incr, a.avail);
    }
  }

  lemma WrappedRoom(mask: Word, k: nat, p: int, size: nat, incr: Word, avail: Word)
    requires IsMask(mask, k, p) && size + mask < WORD
    requires incr + mask >= WORD || avail + Align(mask, incr) >= WORD
    ensures size + incr > Align(mask, size) + Align(mask, incr) || avail + Align(mask, incr) >= WORD
  {
    if incr + mask >= WORD {
      Pow2Word();
      Pow2Mono(k, 31);
      AlignIs(mask, k, p, incr);
      AlignLeast(mask, k, p, size);
    }
  }

  /** A block grown in place has room for its new size; it is a block that ends where the free space begins. */
  lemma GrowKeeps(mask: Word, k: nat, p: int, a: State, i: nat, incr: Word)
    requires Inv(mask, k, p, a) && GrowFits(mask, a, i, incr) && GrowStep(mask, a, i, incr).Some?
    ensures Inv(mask, k, p, GrowStep(mask, a, i, incr).value)
    ensures a.live[i].End() == a.avail
  {
    var b, more := a.live[i], Align(mask, incr);
    assert Inside(mask, a, b);
    GrowTaken(mask, a, i, incr);
    GrownRoom(mask, k, p, b.size, incr, a.base, b.start, a.avail);
    MultipleSum(a.avail, more, p);
    var b' := Block(b.start, b.size + incr, b.room + more);
    GrownAtFree(mask, a, b);
    GrownInside(mask, a, i, more, b');
    GrownApart(a.live, i, b', a.avail);
  }

  lemma GrownAtFree(mask: Word, a: State, b: Block)
    requires Inside(mask, a, b) && a.avail == b.start + Align(mask, b.size)
    ensures b.End() == a.avail
  {
  }

  /** With more space in use, the old blocks and the grown one are inside. */
  lemma GrownInside(mask: Word, a: State, i: nat, more: Word, b: Block)
    requires i < |a.live| && a.avail + more < WORD
    requires forall j | 0 <= j < |a.live| :: Inside(mask, a, a.live[j])
    requires Inside(mask, a.(avail := a.avail + more), b)
    ensures forall j | 0 <= j < |a.live| :: a.live[j].End() <= a.avail
    ensures var a' := a.(avail := a.avail + more, live := a.live[i := b]);
            forall j | 0 <= j < |a'.live| :: Inside(mask, a', a'.live[j])
  {
    forall j | 0 <= j < |a.live|
      ensures a.live[j].End() <= a.avail
    {
      assert Inside(mask, a, a.live[j]);
    }
  }

  /** The grow step without its wrap-arounds. */
  lemma GrowTaken(mask: Word, a: State, i: nat, incr: Word)
    requires GrowStep(mask, a, i, incr).Some?
    requires a.live[i].start + Align(mask, a.live[i].size) < WORD && a.avail + Align(mask, incr) < WORD
    ensures var b, more := a.live[i], Align(mask, incr);
            && a.avail == b.start + Align(mask, b.size) && a.avail + more <= a.limit
            && GrowStep(mask, a, i, incr)
            == Some(a.(avail := a.avail + more, live := a.live[i := Block(b.start, b.size + incr, b.room + more)]))
  {
    WrapOnce(a.live[i].start + Align(mask, a.live[i].size));
    WrapOnce(a.avail + Align(mask, incr));
  }

  /** Alignment is subadditive, and an aligned sum below the word size leaves room for the mask. */
  lemma GrownRoom(mask: Word, k: nat, p: int, size: nat, incr: Word, base: Word, start: Word, avail: Word)
    requires IsMask(mask, k, p) && incr + mask < WORD && size + mask < WORD
    requires base <= start && avail == start + Align(mask, size) && avail + Align(mask, incr) < WORD
    ensures size + incr + mask < WORD
    ensures size + incr <= Align(mask, size + incr) <= Align(mask, size) + Align(mask, incr)
    ensures Align(mask, incr) % p == 0
  {
    AlignLeast(mask, k, p, incr);
    AlignLeast(mask, k, p, size);
    SumBelowWord(k, p, Align(mask, size), Align(mask, incr));
    AlignLeast(mask, k, p, size + incr);
    AlignSubadditive(mask, k, p, size, incr);
  }

  lemma SumBelowWord(k: nat, p: int, x: int, y: int)
    requires k < 32 && p == Pow2(k) && x % p == 0 && y % p == 0 && 0 <= x + y < WORD
    ensures x + y + p <= WORD
  {
    MultipleSum(x, y, p);
    BelowWord(k, p, x + y);
  }

  /** A multiple of the alignment below the word size leaves a whole unit above it. */
  lemma BelowWord(k: nat, p: int, n: Word)
    requires k < 32 && p == Pow2(k) && n % p == 0
    ensures n + p <= WORD
  {
    Pow2Word();
    Pow2Add(32 - k, k);
    DivModUnique(WORD, p, Pow2(32 - k), 0);
    MultipleGap(n, WORD, p);
  }

  /** Only the block that ends where the free space begins can grow into it. */
  lemma GrownApart(live: seq<Block>, i: nat, b: Block, avail: Word)
    requires AllApart(live) && i < |live| && forall j | 0 <= j < |live| :: live[j].End() <= avail
    requires b.start == live[i].start && live[i].End() == avail
    ensures AllApart(live[i := b])
  {
  }

  // --------------------------------------------------------------------------- runs

  datatype Op = Alloc(nb: Word) | Grow(i: nat, incr: Word) | Release(mark: Word)

  function Step(mask: Word, a: State, op: Op): Option<State> {
    match op
    case Alloc(nb) => AllocStep(mask, a, nb)
    case Grow(i, incr) => GrowStep(mask, a, i, incr)
    case Release(mark) => ReleaseStep(mask, a, mark)
  }

  /** A run that stays on the fast paths; None if it leaves them. */
  function RunOf(mask: Word, a: State, ops: seq<Op>): Option<State>
    decreases |ops|
  {
    if ops == [] then Some(a)
    else
      match Step(mask, a, ops[0])
      case None => None
      case Some(a') => RunOf(mask, a', ops[1..])
  }

  predicate StepFits(mask: Word, a: State, op: Op) {
    match op
    case Alloc(nb) => AllocFits(mask, a, nb)
    case Grow(i, incr) => GrowFits(mask, a, i, incr)
    case Release(_) => true
  }

  /** No sum of the run wraps. */
  predicate RunFits(mask: Word, a: State, ops: seq<Op>)
    decreases |ops|
  {
    ops == []
    || (&& StepFits(mask, a, ops[0])
        && var a' := Step(mask, a, ops[0]);
           a'.Some? ==> RunFits(mask, a'.value, ops[1..]))
  }

  lemma StepKeeps(mask: Word, k: nat, p: int, a: State, op: Op)
    requires Inv(mask, k, p, a) && StepFits(mask, a, op) && Step(mask, a, op).Some?
    ensures Inv(mask, k, p, Step(mask, a, op).value)
  {
    match op {
      case Alloc(nb) => AllocKeeps(mask, k, p, a, nb);
      case Grow(i, incr) => GrowKeeps(mask, k, p, a, i, incr);
      case Release(mark) =>
        ReleaseTest(a.base, a.avail, mark);
        ReleaseKeeps(mask, k, p, a, mark);
    }
  }

  /** Every run of the three macros keeps the blocks apart and inside the arena. */
  lemma {:induction false} RunKeeps(mask: Word, k: nat, p: int, a: State, ops: seq<Op>)
    requires Inv(mask, k, p, a) && RunFits(mask, a, ops) && RunOf(mask, a, ops).Some?
    ensures Inv(mask, k, p, RunOf(mask, a, ops).value)
    decreases |ops|
  {
    if ops != [] {
      StepKeeps(mask, k, p, a, ops[0]);
      RunKeeps(mask, k, p, Step(mask, a, ops[0]).value, ops[1..]);
    }
  }

  predicate NoRelease(ops: seq<Op>) {
    forall m | 0 <= m < |ops| :: !ops[m].Release?
  }

  /** What a run without a release does to the blocks that were live before it. */
  lemma {:induction false} RunHistory(mask: Word, a: State, ops: seq<Op>)
    requires RunOf(mask, a, ops).Some? && NoRelease(ops)
    ensures var a' := RunOf(mask, a, ops).value;
            && a'.base == a.base && a'.limit == a.limit && |a'.live| >= |a.live|
            && forall i | 0 <= i < |a.live| && NotGrown(ops, i) :: a'.live[i] == a.live[i]
    decreases |ops|
  {
    if ops != [] {
      RunHistory(mask, Step(mask, a, ops[0]).value, ops[1..]);
      forall i | NotGrown(ops, i)
        ensures NotGrown(ops[1..], i)
      {
      }
    }
  }

  // ------------------------------------------------------------------------ release

  /** The one unsigned comparison of PL_ARENA_RELEASE tests both bounds, wherever the mark is. */
  lemma ReleaseTest(base: Word, avail: Word, mark: Word)
    requires base <= avail
    ensures Wrap(mark - base) <= Wrap(avail - base) <==> base <= mark <= avail
  {
    WrapOnce(mark - base);
    WrapOnce(avail - base);
  }

  lemma {:induction false} BelowIs(live: seq<Block>, mark: Word)
    ensures forall b :: b in Below(live, mark) <==> b in live && b.End() <= mark
  {
    if live != [] {
      BelowIs(live[1..], mark);
      assert live == [live[0]] + live[1..];
    }
  }

  lemma {:induction false} BelowApart(live: seq<Block>, mark: Word)
    requires AllApart(live)
    ensures AllApart(Below(live, mark))
  {
    if live != [] {
      var rest := live[1..];
      var r := Below(rest, mark);
      BelowApart(rest, mark);
      BelowIs(rest, mark);
      forall j | 0 <= j < |r|
        ensures NoOverlap(live[0], r[j])
      {
        assert r[j] in rest;
        var m :| 0 <= m < |rest| && rest[m] == r[j];
        assert live[m + 1] == r[j];
      }
      var full := Below(live, mark);
      assert full == (if live[0].End() <= mark then [live[0]] else []) + r;
      forall i, j | 0 <= i < j < |full|
        ensures NoOverlap(full[i], full[j])
      {
        if live[0].End() <= mark {
          assert full[j] == r[j - 1];
          if i == 0 {
            assert full[0] == live[0];
          } else {
            assert full[i] == r[i - 1] && NoOverlap(r[i - 1], r[j - 1]);
          }
        } else {
          assert full == r;
        }
      }
    }
  }

  /** An address inside the arena is aligned to one that is still inside. */
  lemma MarkAligned(mask: Word, k: nat, p: int, mark: Word, avail: Word)
    requires IsMask(mask, k, p) && mark <= avail && avail % p == 0
    ensures mark <= Align(mask, mark) <= avail && Align(mask, mark) % p == 0
    ensures mark % p == 0 ==> Align(mask, mark) == mark
  {
    BelowWord(k, p, avail);
    AlignLeast(mask, k, p, mark);
  }

  /** A release inside the arena keeps exactly the blocks below the mark, aligned or not. */
  lemma ReleaseKeeps(mask: Word, k: nat, p: int, a: State, mark: Word)
    requires Inv(mask, k, p, a) && a.base <= mark <= a.avail
    ensures var r := ReleaseStep(mask, a, mark);
            && r.Some? && mark <= r.value.avail && Inv(mask, k, p, r.value)
            && (mark % p == 0 ==> r.value.avail == mark)
            && forall b :: b in r.value.live <==> b in a.live && b.End() <= mark
  {
    var avail := ReleaseTaken(mask, k, p, a, mark);
    BelowIs(a.live, mark);
    InvBelow(mask, k, p, a, mark, avail);
  }

  lemma ReleaseTaken(mask: Word, k: nat, p: int, a: State, mark: Word) returns (avail: Word)
    requires Inv(mask, k, p, a) && a.base <= mark <= a.avail
    ensures mark <= avail <= a.avail && avail % p == 0 && (mark % p == 0 ==> avail == mark)
    ensures ReleaseStep(mask, a, mark) == Some(a.(avail := avail, live := Below(a.live, mark)))
  {
    ReleaseTest(a.base, a.avail, mark);
    MarkAligned(mask, k, p, mark, a.avail);
    avail := Align(mask, mark);
  }

  lemma InvBelow(mask: Word, k: nat, p: int, a: State, mark: Word, avail: Word)
    requires Inv(mask, k, p, a) && avail % p == 0 && a.base <= mark <= avail <= a.avail
    ensures Inv(mask, k, p, a.(avail := avail, live := Below(a.live, mark)))
  {
    BelowApart(a.live, mark);
    BelowInside(mask, a, mark, avail);
  }

  lemma BelowInside(mask: Word, a: State, mark: Word, avail: Word)
    requires mark <= avail && forall i | 0 <= i < |a.live| :: Inside(mask, a, a.live[i])
    ensures var r := a.(avail := avail, live := Below(a.live, mark));
            forall i | 0 <= i < |r.live| :: Inside(mask, r, r.live[i])
  {
    BelowIs(a.live, mark);
    var r := a.(avail := avail, live := Below(a.live, mark));
    forall i | 0 <= i < |r.live|
      ensures Inside(mask, r, r.live[i])
    {
      assert r.live[i] in a.live;
      var j :| 0 <= j < |a.live| && a.live[j] == r.live[i];
      InsideBelow(mask, a, r, a.live[j]);
    }
  }

  lemma InsideBelow(mask: Word, a: State, r: State, b: Block)
    requires Inside(mask, a, b) && r.base == a.base && b.End() <= r.avail
    ensures Inside(mask, r, b)
  {
  }

  /** No grow of the run is a grow of block i. */
  predicate NotGrown(ops: seq<Op>, i: nat) {
    forall m | 0 <= m < |ops| && ops[m].Grow? :: ops[m].i != i
  }

  /** Every release of the run is at a mark taken behind the outer mark. */
  predicate Nested(ops: seq<Op>, outer: Word) {
    forall m | 0 <= m < |ops| && ops[m].Release? :: outer <= ops[m].mark
  }

  /** No grow of the run is a grow of b. */
  predicate LeavesAlone(mask: Word, a: State, ops: seq<Op>, b: Block)
    decreases |ops|
  {
    ops == []
    || (&& (ops[0].Grow? && ops[0].i < |a.live| ==> a.live[ops[0].i] != b)
        && var a' := Step(mask, a, ops[0]);
           a'.Some? ==> LeavesAlone(mask, a'.value, ops[1..], b))
  }

  /** A run of nested marks stays behind the outer one, and keeps what lies before it and is not grown. */
  lemma {:induction false} NestedRun(mask: Word, k: nat, p: int, a: State, ops: seq<Op>, outer: Word)
    requires Inv(mask, k, p, a) && RunFits(mask, a, ops) && RunOf(mask, a, ops).Some?
    requires Nested(ops, outer) && a.base <= outer <= a.avail
    ensures var a' := RunOf(mask, a, ops).value;
            && a'.base == a.base && outer <= a'.avail
            && forall b | b in a.live && b.End() <= outer && LeavesAlone(mask, a, ops, b) :: b in a'.live
    decreases |ops|
  {
    if ops != [] {
      var a1 := Step(mask, a, ops[0]).value;
      StepKeeps(mask, k, p, a, ops[0]);
      NestedStep(mask, k, p, a, ops[0], outer);
      forall m | 0 <= m < |ops[1..]| && ops[1..][m].Release?
        ensures outer <= ops[1..][m].mark
      {
        assert ops[m + 1].Release?;
      }
      NestedRun(mask, k, p, a1, ops[1..], outer);
    }
  }

  lemma NestedStep(mask: Word, k: nat, p: int, a: State, op: Op, outer: Word)
    requires Inv(mask, k, p, a) && StepFits(mask, a, op) && Step(mask, a, op).Some?
    requires a.base <= outer <= a.avail && (op.Release? ==> outer <= op.mark)
    ensures var a' := Step(mask, a, op).value;
            && a'.base == a.base && outer <= a'.avail
            && forall b | b in a.live && b.End() <= outer && (op.Grow? ==> a.live[op.i] != b) :: b in a'.live
  {
    match op {
      case Alloc(nb) =>
        WrapOnce(a.avail + Align(mask, nb));
      case Grow(i, incr) =>
        WrapOnce(a.avail + Align(mask, incr));
        forall b | b in a.live && a.live[i] != b
          ensures b in Step(mask, a, op).value.live
        {
          var m :| 0 <= m < |a.live| && a.live[m] == b;
          assert Step(mask, a, op).value.live[m] == b;
        }
      case Release(mark) =>
        ReleaseTest(a.base, a.avail, mark);
        ReleaseKeeps(mask, k, p, a, mark);
    }
  }

  /** A block that ends before the outer mark is never at the free space, so the run cannot grow it. */
  lemma {:induction false} EndsBefore(mask: Word, k: nat, p: int, a: State, ops: seq<Op>, outer: Word, b: Block)
    requires Inv(mask, k, p, a) && RunFits(mask, a, ops) && RunOf(mask, a, ops).Some?
    requires Nested(ops, outer) && a.base <= outer <= a.avail && b.End() < outer
    ensures LeavesAlone(mask, a, ops, b)
    decreases |ops|
  {
    if ops != [] {
      StepKeeps(mask, k, p, a, ops[0]);
      NestedStep(mask, k, p, a, ops[0], outer);
      if ops[0].Grow? {
        GrowKeeps(mask, k, p, a, ops[0].i, ops[0].incr);
      }
      forall m | 0 <= m < |ops[1..]| && ops[1..][m].Release?
        ensures outer <= ops[1..][m].mark
      {
        assert ops[m + 1].Release?;
      }
      EndsBefore(mask, k, p, Step(mask, a, ops[0]).value, ops[1..], outer, b);
    }
  }

  /**
   Mark, run, release: after any run of the three macros whose own releases are at later
   marks, the release puts avail back to the mark and keeps the arena valid. It keeps every
   block of before the mark that the run did not grow, in particular all that end before the
   mark; and all blocks left lie below the mark.
   */
  lemma ReleaseUndoesRun(mask: Word, k: nat, p: int, a: State, ops: seq<Op>)
    requires Inv(mask, k, p, a) && RunFits(mask, a, ops) && RunOf(mask, a, ops).Some? && Nested(ops, a.avail)
    ensures var r := ReleaseStep(mask, RunOf(mask, a, ops).value, a.avail);
            && r.Some? && r.value.avail == a.avail && Inv(mask, k, p, r.value)
            && (forall b :: b in r.value.live ==> b.End() <= a.avail)
            && (forall b | b in a.live && LeavesAlone(mask, a, ops, b) :: b in r.value.live)
            && (forall b | b in a.live && b.End() < a.avail :: b in r.value.live)
            && (NoRelease(ops) ==> forall i | 0 <= i < |a.live| && NotGrown(ops, i) :: a.live[i] in r.value.live)
  {
    var a' := RunOf(mask, a, ops).value;
    RunKeeps(mask, k, p, a, ops);
    NestedRun(mask, k, p, a, ops, a.avail);
    ReleaseKeeps(mask, k, p, a', a.avail);
    forall b | b in a.live
      ensures b.End() <= a.avail && (b.End() < a.avail ==> LeavesAlone(mask, a, ops, b))
    {
      var m :| 0 <= m < |a.live| && a.live[m] == b;
      assert Inside(mask, a, a.live[m]);
      if b.End() < a.avail {
        EndsBefore(mask, k, p, a, ops, a.avail, b);
      }
    }
    if NoRelease(ops) {
      RunHistory(mask, a, ops);
      forall i | 0 <= i < |a.live| && NotGrown(ops, i)
        ensures a.live[i] in a'.live && a.live[i].End() <= a.avail
      {
        assert a'.live[i] == a.live[i] && Inside(mask, a, a.live[i]);
      }
    }
  }

  // ------------------------------------------------- when the fast paths are taken

  /** a is the least multiple of p that holds n bytes. */
  ghost predicate LeastMultiple(p: int, n: nat, a: nat)
    requires 1 <= p
  {
    n <= a && a % p == 0 && forall m: nat | n <= m && m % p == 0 :: a <= m
  }

  lemma AlignIsLeast(mask: Word, k: nat, p: int, n: nat, a: nat)
    requires IsMask(mask, k, p) && n + mask < WORD && LeastMultiple(p, n, a)
    ensures Align(mask, n) == a
  {
    AlignLeast(mask, k, p, n);
  }

  /** The two tests of PL_ARENA_GROW on an address, a size and an increment. */
  predicate GrowsInPlace(mask: Word, a: State, p: Word, size: nat, incr: Word) {
    a.avail == Wrap(p + Align(mask, size)) && Wrap(a.avail + Align(mask, incr)) <= a.limit
  }

  /**
   An allocation whose sums do not wrap is granted exactly when the least aligned size that
   holds it is left; it then takes that much, from where the free space begins.
   */
  lemma AllocGranted(mask: Word, k: nat, p: int, a: State, nb: Word, room: nat)
    requires Inv(mask, k, p, a) && AllocFits(mask, a, nb) && LeastMultiple(p, nb, room)
    ensures AllocStep(mask, a, nb)
         == if room <= a.limit - a.avail then
              Some(a.(avail := a.avail + room, live := a.live + [Block(a.avail, nb, room)]))
            else None
  {
    AlignIsLeast(mask, k, p, nb, room);
    WrapOnce(a.avail + room);
  }

  /** The tests of a grow, for any address, in a run of sums that do not wrap. */
  lemma GrowTests(mask: Word, k: nat, p: int, a: State, q: Word, size: nat, incr: Word, room: nat, more: nat)
    requires Inv(mask, k, p, a) && size + mask < WORD && incr + mask < WORD
    requires LeastMultiple(p, size, room) && LeastMultiple(p, incr, more)
    requires q + room < WORD && a.avail + more < WORD
    ensures GrowsInPlace(mask, a, q, size, incr) <==> q + room == a.avail && more <= a.limit - a.avail
  {
    AlignIsLeast(mask, k, p, size, room);
    AlignIsLeast(mask, k, p, incr, more);
    WrapOnce(q + room);
    WrapOnce(a.avail + more);
  }

  /**
   A grow whose sums do not wrap is granted exactly when the least aligned size that holds
   the block ends where the free space begins, and the least aligned increment is left; the
   block then keeps its place and takes that much more.
   */
  lemma GrowGranted(mask: Word, k: nat, p: int, a: State, i: nat, incr: Word, room: nat, more: nat)
    requires Inv(mask, k, p, a) && GrowFits(mask, a, i, incr)
    requires LeastMultiple(p, a.live[i].size, room) && LeastMultiple(p, incr, more)
    ensures var b := a.live[i];
            GrowStep(mask, a, i, incr)
            == if b.start + room == a.avail && more <= a.limit - a.avail then
                 Some(a.(avail := a.avail + more, live := a.live[i := Block(b.start, b.size + incr, b.room + more)]))
               else None
  {
    var b := a.live[i];
    assert Inside(mask, a, b);
    AlignIsLeast(mask, k, p, b.size, room);
    AlignIsLeast(mask, k, p, incr, more);
    WrapOnce(b.start + room);
    WrapOnce(a.avail + more);
  }

  /**
   So a block at the free space whose room is the least for its size is granted all that is
   left, and one that carries more room than that is granted nothing.
   */
  lemma GrowAtFree(mask: Word, k: nat, p: int, a: State, i: nat, incr: Word, more: nat)
    requires Inv(mask, k, p, a) && GrowFits(mask, a, i, incr) && LeastMultiple(p, incr, more)
    requires a.live[i].End() == a.avail
    ensures GrowStep(mask, a, i, incr).Some? <==>
            LeastMultiple(p, a.live[i].size, a.live[i].room) && more <= a.limit - a.avail
  {
    var b := a.live[i];
    assert Inside(mask, a, b);
    AlignLeast(mask, k, p, b.size);
    var room := Align(mask, b.size);
    GrowGranted(mask, k, p, a, i, incr, room, more);
    assert LeastMultiple(p, b.size, b.room) ==> b.room == room;
  }

  /** A block grown from 9 bytes to 10 in 24 bytes of room is not grown again. */
  lemma GrownTwice()
    ensures var a := State(8, 64, 24, [Block(8, 9, 16)]);
            var a' := State(8, 64, 32, [Block(8, 10, 24)]);
            && Inv(7, 3, 8, a) && GrowStep(7, a, 0, 1) == Some(a') && Inv(7, 3, 8, a')
            && GrowFits(7, a', 0, 1) && GrowStep(7, a', 0, 1).None?
  {
    EightIsMask();
    AlignIs(7, 3, 8, 1);
    AlignIs(7, 3, 8, 9);
    AlignIs(7, 3, 8, 10);
    WrapOnce(24);
    WrapOnce(32);
    WrapOnce(40);
    var a := State(8, 64, 24, [Block(8, 9, 16)]);
    assert Inside(7, a, a.live[0]) && a.live[0 := Block(8, 10, 24)] == [Block(8, 10, 24)];
    GrowKeeps(7, 3, 8, a, 0, 1);
  }

  /** A release is done here exactly when the mark lies in the space in use. */
  lemma ReleaseGranted(mask: Word, k: nat, p: int, a: State, mark: Word, avail: nat)
    requires Inv(mask, k, p, a) && LeastMultiple(p, mark, avail)
    ensures ReleaseStep(mask, a, mark)
         == if a.base <= mark <= a.avail then Some(a.(avail := avail, live := Below(a.live, mark))) else None
  {
    ReleaseTest(a.base, a.avail, mark);
    if a.base <= mark <= a.avail {
      BelowWord(k, p, a.avail);
      AlignIsLeast(mask, k, p, mark, avail);
    }
  }

  // ------------------------------------------------------- sums that wrap around

  /** A request whose aligned size wraps to nothing is granted, without any room. */
  lemma AllocationWraps()
    ensures var a, nb := State(8, 64, 8, []), WORD - 1;
            && Inv(7, 3, 8, a) && AllocStep(7, a, nb) == Some(a.(live := [Block(8, nb, 0)]))
            && !AllocFits(7, a, nb)
  {
    EightIsMask();
    AlignIs(7, 3, 8, WORD - 1);
    WrapOnce(8);
    var b := Block(8, WORD - 1, 0);
    assert [] + [b] == [b];
  }

  /** A block grown by such an amount stays as it is, with the larger size on record. */
  lemma GrowthWraps()
    ensures var b, incr := Block(8, 8, 8), WORD - 1;
            var a := State(8, 64, 16, [b]);
            && Inv(7, 3, 8, a) && GrowStep(7, a, 0, incr) == Some(a.(live := [Block(8, 8 + incr, 8)]))
            && !GrowFits(7, a, 0, incr)
  {
    EightIsMask();
    AlignIs(7, 3, 8, WORD - 1);
    AlignIs(7, 3, 8, 8);
    WrapOnce(16);
    var a := State(8, 64, 16, [Block(8, 8, 8)]);
    assert Align(7, 8) == 8 && Align(7, WORD - 1) == 0;
    assert Inside(7, a, a.live[0]);
    assert a.live[0 := Block(8, 8 + WORD - 1, 8)] == [Block(8, 8 + WORD - 1, 8)];
  }

  lemma EightIsMask()
    ensures IsMask(7, 3, 8)
  {
    assert Pow2(3) == 2 * Pow2(2) && Pow2(2) == 2 * Pow2(1) && Pow2(1) == 2 * Pow2(0);
  }

  // --------------------------------------------------------------------- the macros

  class PLArena {
    var base: Word
    var limit: Word
    var avail: Word
    /** The blocks in use. */
    ghost var live: seq<Block>

    constructor (base: Word, limit: Word)
      requires base <= limit
      ensures Contents() == State(base, limit, base, [])
    {
      this.base, this.limit, this.avail, this.live := base, limit, base, [];
    }

    ghost function Contents(): State
      reads this
    {
      State(base, limit, avail, live)
    }
  }

  class PLArenaPool {
    var current: PLArena
    var mask: Word

    constructor (current: PLArena, mask: Word)
      ensures this.current == current && this.mask == mask
    {
      this.current, this.mask := current, mask;
    }
  }

  method Allocate(pool: PLArenaPool, nb: Word) returns (p: Option<Word>)
    modifies pool.current
    ensures match AllocStep(pool.mask, old(pool.current.Contents()), nb)
            case None => p.None? && pool.current.Contents() == old(pool.current.Contents())
            case Some(s) => p == Some(old(pool.current.avail)) && pool.current.Contents() == s
  {
    var a := pool.current;
    var nb' := Align(pool.mask, nb);
    var p': int := a.avail;
    var q := Wrap(p' + nb');
    if q > a.limit {
      p := None;
    } else {
      a.avail := q;
      a.live := a.live + [Block(p', nb, nb')];
      p := Some(p');
    }
  }

  predicate IsBlock(a: State, i: nat, p: Word, size: nat) {
    i < |a.live| && a.live[i].start == p && a.live[i].size == size
  }

  /** The address is that of a live block, or of none: a block of another arena, say. */
  method GrowBlock(pool: PLArenaPool, p: Word, size: nat, incr: Word, ghost which: Option<nat>) returns (inPlace: bool)
    requires which.Some? ==> IsBlock(pool.current.Contents(), which.value, p, size)
    modifies pool.current
    ensures var a := old(pool.current.Contents());
            && inPlace == GrowsInPlace(pool.mask, a, p, size, incr)
            && match which
               case Some(i) =>
                 pool.current.Contents() == (if inPlace then GrowStep(pool.mask, a, i, incr).value else a)
                 && inPlace == GrowStep(pool.mask, a, i, incr).Some?
               case None =>
                 pool.current.Contents() == if inPlace then a.(avail := Wrap(a.avail + Align(pool.mask, incr))) else a
  {
    var a := pool.current;
    var incr' := Align(pool.mask, incr);
    var p': int := a.avail;
    var q := Wrap(p' + incr');
    ghost var before := a.Contents();
    inPlace := p' == Wrap(p + Align(pool.mask, size)) && q <= a.limit;
    assert inPlace == GrowsInPlace(pool.mask, before, p, size, incr);
    assert which.Some? ==> inPlace == GrowStep(pool.mask, before, which.value, incr).Some?;
    if inPlace {
      a.avail := q;
      if which.Some? {
        ghost var i := which.value;
        a.live := a.live[i := Block(p, size + incr, a.live[i].room + incr')];
      }
    }
  }

  method Mark(pool: PLArenaPool) returns (mark: Word)
    ensures mark == pool.current.Contents().avail
  {
    mark := pool.current.avail;
  }

  method Release(pool: PLArenaPool, mark: Word) returns (here: bool)
    modifies pool.current
    ensures match ReleaseStep(pool.mask, old(pool.current.Contents()), mark)
            case None => !here && pool.current.Contents() == old(pool.current.Contents())
            case Some(s) => here && pool.current.Contents() == s
  {
    var a := pool.current;
    here := Wrap(mark - a.base) <= Wrap(a.avail - a.base);
    if here {
      a.avail := Align(pool.mask, mark);
      a.live := Below(a.live, mark);
    }
  }
}
