/**
 Laws of the canonical form: how it composes, and what it does not depend on.
 */
module ScannerLaws {
  import opened Options
  import opened Text
  import opened Scanner

  /** Scanning t, with more emitted first. */
  function Prepend(out: seq<Unit>, r: Scan): Scan {
    r.(out := out + r.out)
  }

  /** The stop string ends t at no position. */
  ghost predicate NoStop(stop: seq<Unit>, t: seq<Unit>) {
    forall k | 0 <= k < |t| :: t[k..] != stop
  }

  lemma NoStopTail(stop: seq<Unit>, t: seq<Unit>, n: nat)
    requires NoStop(stop, t) && n <= |t|
    ensures NoStop(stop, t[n..])
  {
    forall k | 0 <= k < |t[n..]|
      ensures t[n..][k..] != stop
    {
      assert t[n..][k..] == t[n + k..];
    }
  }

  /** The stop string occurs as the end of t + y neither at y nor across the two. */
  ghost predicate JoinsFree(stop: seq<Unit>, t: seq<Unit>, y: seq<Unit>) {
    forall k | 0 <= k <= |t| :: t[k..] + y != stop
  }

  lemma JoinsFreeTail(stop: seq<Unit>, t: seq<Unit>, y: seq<Unit>, n: nat)
    requires JoinsFree(stop, t, y) && n <= |t|
    ensures JoinsFree(stop, t[n..], y)
    ensures t + y != stop && y != stop
  {
    assert t[0..] == t && t[|t|..] + y == y;
    forall k | 0 <= k <= |t[n..]|
      ensures t[n..][k..] + y != stop
    {
      assert t[n..][k..] == t[n + k..];
    }
  }

  lemma JoinsFromWhole(stop: seq<Unit>, a: seq<Unit>, t: seq<Unit>, y: seq<Unit>)
    requires stop != [] && NoStop(stop, a + t + y)
    ensures JoinsFree(stop, a, t + y) && JoinsFree(stop, t, y)
  {
    var whole := a + t + y;
    forall k | 0 <= k <= |a|
      ensures a[k..] + (t + y) != stop
    {
      assert a[k..] + (t + y) == whole[k..];
      assert whole[|whole|..] == [];
    }
    forall k | 0 <= k <= |t|
      ensures t[k..] + y != stop
    {
      assert t[k..] + y == whole[|a| + k..];
      assert whole[|whole|..] == [];
    }
  }

  /** Whether the unit before the rest of the text is a backslash. */
  function Escaped(t: seq<Unit>, s: State): bool {
    if t == [] then s.escaped else t[|t| - 1] == BACKSLASH
  }

  lemma EscapedAfter(c: CharClass, t: seq<Unit>, s: State, q: Quote, n: nat)
    requires n < |t|
    ensures Escaped(After(t, n), Next(c, s, q, At(t, n))) == Escaped(t, s)
  {
  }

  lemma AfterAppend(t: seq<Unit>, y: seq<Unit>, n: nat)
    requires n < |t|
    ensures After(t + y, n) == After(t, n) + y && At(t + y, n) == At(t, n)
  {
  }

  // ------------------------------------------------------------------ composition

  lemma PrependTwice(a: seq<Unit>, b: seq<Unit>, r: Scan)
    ensures Prepend(a, Prepend(b, r)) == Prepend(a + b, r)
  {
    assert a + (b + r.out) == a + b + r.out;
  }

  lemma PrependNothing(r: Scan)
    ensures Prepend([], r) == r
  {
    assert [] + r.out == r.out;
  }

  /** One unfolding of Canon. */
  lemma CanonUnfold(c: CharClass, stop: seq<Unit>, t: seq<Unit>, s: State, q: Quote, n: nat)
    requires t != [] && t != stop && q == QuoteStep(s.quote, s.escaped, t[0]) && Jump(t, q) == Some(n)
    ensures Canon(c, stop, t, s)
         == Prepend(Emit(c, At(t, n), s.white), Canon(c, stop, After(t, n), Next(c, s, q, At(t, n))))
  {
  }

  lemma {:induction false} FindAppend(t: seq<Unit>, y: seq<Unit>, s: seq<Unit>)
    requires Find(t, s).Some?
    ensures Find(t + y, s) == Find(t, s)
  {
    if s <= t {
      assert s <= t + y;
    } else {
      assert (t + y)[1..] == t[1..] + y;
      FindAppend(t[1..], y, s);
      assert (t + y)[..|s|] == t[..|s|];
    }
  }

  /** More text does not change a skip, unless its first unit completes a comment opener. */
  lemma JumpAppend(t: seq<Unit>, y: seq<Unit>, q: Quote)
    requires t != [] && Jump(t, q).Some?
    requires |t| == 1 && y != [] ==> y[0] != SLASH && y[0] != STAR
    ensures Jump(t + y, q) == Jump(t, q)
  {
    var ty := t + y;
    if |t| > 1 {
      assert t[..2] == ty[..2];
      assert LINE_COMMENT <= ty <==> LINE_COMMENT <= t;
      assert BLOCK_COMMENT <= ty <==> BLOCK_COMMENT <= t;
      if q.Outside? && LINE_COMMENT <= t {
        FindAppend(t, y, [LF]);
      } else if q.Outside? && BLOCK_COMMENT <= t {
        FindAppend(t, y, BLOCK_END);
      }
    } else if |ty| > 1 {
      assert ty[1] == y[0];
    }
  }

  /** A unit that neither quotes nor starts nor completes a comment opener. */
  predicate Plain(u: Unit) {
    u != DOUBLE_QUOTE && u != APOSTROPHE && u != SLASH && u != STAR
  }

  lemma JumpPlain(y: seq<Unit>, q: Quote)
    requires y != [] && y[0] != SLASH
    ensures Jump(y, q) == Some(0)
  {
  }

  /**
   The scan of a text goes on where the scan of its first part ended, when the comments
   of the first part end inside it and the second part starts with a plain unit.
   */
  lemma {:induction false} CanonAppend(c: CharClass, stop: seq<Unit>, t: seq<Unit>, y: seq<Unit>, s: State)
    requires c.Valid() && Canon(c, stop, t, s).ok && NoStop(stop, t)
    requires y != [] && Plain(y[0])
    requires JoinsFree(stop, t, y)
    ensures var r := Canon(c, stop, t, s);
            Canon(c, stop, t + y, s) == Prepend(r.out, Canon(c, stop, y, State(Escaped(t, s), r.quote, r.white)))
    decreases |t|
  {
    if t == [] {
      assert t + y == y;
      PrependNothing(Canon(c, stop, y, s));
    } else {
      NotTheStop(stop, t, y);
      var q := QuoteStep(s.quote, s.escaped, t[0]);
      var n := JumpEnds(c, stop, t, s, q);
      AppendStep(c, stop, t, y, s, q, n);
      if n < |t| {
        NoStopTail(stop, t, n + 1);
        JoinsFreeTail(stop, t, y, n + 1);
        CanonAppend(c, stop, After(t, n), y, Next(c, s, q, At(t, n)));
        AppendInside(c, stop, t, y, s, q, n);
      } else {
        AppendAtEnd(c, stop, t, y, s, q);
      }
    }
  }

  /** In a scan that ends well, the comment at hand ends, and so do those behind it. */
  lemma JumpEnds(c: CharClass, stop: seq<Unit>, t: seq<Unit>, s: State, q: Quote) returns (n: nat)
    requires t != [] && t != stop && Canon(c, stop, t, s).ok && q == QuoteStep(s.quote, s.escaped, t[0])
    ensures Jump(t, q) == Some(n) && n <= |t| && Canon(c, stop, After(t, n), Next(c, s, q, At(t, n))).ok
  {
    n := Jump(t, q).value;
    CanonUnfold(c, stop, t, s, q, n);
  }

  lemma NotTheStop(stop: seq<Unit>, t: seq<Unit>, y: seq<Unit>)
    requires t != [] && NoStop(stop, t) && JoinsFree(stop, t, y)
    ensures t != stop && t + y != stop && y != stop
  {
    JoinsFreeTail(stop, t, y, 0);
    assert t[0..] == t;
  }

  lemma AppendStep(c: CharClass, stop: seq<Unit>, t: seq<Unit>, y: seq<Unit>, s: State, q: Quote, n: nat)
    requires t != [] && t != stop && y != [] && Plain(y[0]) && t + y != stop
    requires q == QuoteStep(s.quote, s.escaped, t[0]) && Jump(t, q) == Some(n)
    ensures Canon(c, stop, t, s)
         == Prepend(Emit(c, At(t, n), s.white), Canon(c, stop, After(t, n), Next(c, s, q, At(t, n))))
    ensures Canon(c, stop, t + y, s)
         == Prepend(Emit(c, At(t + y, n), s.white), Canon(c, stop, After(t + y, n), Next(c, s, q, At(t + y, n))))
  {
    CanonUnfold(c, stop, t, s, q, n);
    JumpAppend(t, y, q);
    CanonUnfold(c, stop, t + y, s, q, n);
  }

  /** The first part goes on behind the unit at n. */
  lemma AppendInside(c: CharClass, stop: seq<Unit>, t: seq<Unit>, y: seq<Unit>, s: State, q: Quote, n: nat)
    requires n < |t| && y != []
    requires Canon(c, stop, t, s)
          == Prepend(Emit(c, At(t, n), s.white), Canon(c, stop, After(t, n), Next(c, s, q, At(t, n))))
    requires Canon(c, stop, t + y, s)
          == Prepend(Emit(c, At(t + y, n), s.white), Canon(c, stop, After(t + y, n), Next(c, s, q, At(t + y, n))))
    requires var rest, next := After(t, n), Next(c, s, q, At(t, n));
             var r := Canon(c, stop, rest, next);
             Canon(c, stop, rest + y, next) == Prepend(r.out, Canon(c, stop, y, State(Escaped(rest, next), r.quote, r.white)))
    ensures var r := Canon(c, stop, t, s);
            Canon(c, stop, t + y, s) == Prepend(r.out, Canon(c, stop, y, State(Escaped(t, s), r.quote, r.white)))
  {
    AfterAppend(t, y, n);
    EscapedAfter(c, t, s, q, n);
    var r := Canon(c, stop, After(t, n), Next(c, s, q, At(t, n)));
    PrependTwice(Emit(c, At(t, n), s.white), r.out, Canon(c, stop, y, State(Escaped(t, s), r.quote, r.white)));
  }

  /** The first part ends exactly with a block comment, so y[0] is hashed without a look at it. */
  lemma AppendAtEnd(c: CharClass, stop: seq<Unit>, t: seq<Unit>, y: seq<Unit>, s: State, q: Quote)
    requires c.Valid() && t != [] && y != [] && Plain(y[0]) && y != stop
    requires q == QuoteStep(s.quote, s.escaped, t[0]) && Jump(t, q) == Some(|t|)
    requires Canon(c, stop, t, s) == Prepend([], Canon(c, stop, [], Next(c, s, q, NUL)))
    requires Canon(c, stop, t + y, s)
          == Prepend(Emit(c, y[0], s.white), Canon(c, stop, After(t + y, |t|), Next(c, s, q, y[0])))
    ensures var r := Canon(c, stop, t, s);
            Canon(c, stop, t + y, s) == Prepend(r.out, Canon(c, stop, y, State(Escaped(t, s), r.quote, r.white)))
  {
    EndsInBlockComment(t, q);
    assert After(t + y, |t|) == After(y, 0);
    var end := State(false, q, s.white);
    CanonPlain(c, stop, y, end);
    PrependNothing(Canon(c, stop, y, end));
  }

  /** Outside quotes a plain unit is hashed as it is. */
  lemma CanonPlain(c: CharClass, stop: seq<Unit>, y: seq<Unit>, s: State)
    requires y != [] && Plain(y[0]) && y != stop && s.quote.Outside? && !s.escaped
    ensures Canon(c, stop, y, s)
         == Prepend(Emit(c, y[0], s.white), Canon(c, stop, After(y, 0), Next(c, s, Outside, y[0])))
  {
    JumpPlain(y, Outside);
    CanonUnfold(c, stop, y, s, Outside, 0);
  }

  lemma EndsInBlockComment(t: seq<Unit>, q: Quote)
    requires t != [] && Jump(t, q) == Some(|t|)
    ensures q.Outside? && t[|t| - 1] == SLASH
  {
    if LINE_COMMENT <= t {
      FindLeast(t, [LF]);
    } else {
      FindLeast(t, BLOCK_END);
      assert t[|t| - 2..][1] == SLASH;
    }
  }

  // -------------------------------------------------------- whitespace and comments

  /** A text of nothing but whitespace. */
  ghost predicate White(c: CharClass, t: seq<Unit>) {
    forall k | 0 <= k < |t| :: c.space(t[k])
  }

  /** Whitespace is not printable, so it is neither a quote, a backslash nor a slash. */
  lemma WhiteIsPlain(c: CharClass, u: Unit)
    requires c.Valid() && c.space(u)
    ensures !c.graph(u) && Plain(u) && u != BACKSLASH
  {
    assert !(c.graph(u) && c.space(u));
  }

  /** The quotes at a unit that is no quote itself: only a backslash before it matters. */
  function Unescaped(s: State): Quote {
    if s.escaped then Outside else s.quote
  }

  lemma CanonWhite(c: CharClass, stop: seq<Unit>, t: seq<Unit>, s: State)
    requires c.Valid() && t != [] && t != stop && c.space(t[0])
    ensures Canon(c, stop, t, s)
         == Prepend(if s.white then [] else [SPACE], Canon(c, stop, t[1..], State(false, Unescaped(s), true)))
  {
    WhiteIsPlain(c, t[0]);
    JumpPlain(t, Unescaped(s));
    CanonUnfold(c, stop, t, s, Unescaped(s), 0);
  }

  /** A run of whitespace is hashed as at most one space, whatever the run is. */
  lemma {:induction false} CanonWhiteRun(c: CharClass, stop: seq<Unit>, run: seq<Unit>, b: seq<Unit>, s: State)
    requires c.Valid() && run != [] && White(c, run) && JoinsFree(stop, run, b)
    ensures Canon(c, stop, run + b, s)
         == Prepend(if s.white then [] else [SPACE], Canon(c, stop, b, State(false, Unescaped(s), true)))
    decreases |run|
  {
    JoinsFreeTail(stop, run, b, 1);
    TailAppend(run, b);
    CanonWhite(c, stop, run + b, s);
    var rest, s1 := run[1..], State(false, Unescaped(s), true);
    if rest == [] {
      assert rest + b == b;
    } else {
      CanonWhiteRun(c, stop, rest, b, s1);
      PrependNothing(Canon(c, stop, b, s1));
    }
  }

  lemma TailAppend(t: seq<Unit>, y: seq<Unit>)
    requires t != []
    ensures t + y != [] && (t + y)[0] == t[0] && (t + y)[1..] == t[1..] + y
  {
  }

  /**
   Replacing a run of whitespace between a and b by another leaves the scan unchanged,
   when no comment of a runs into it.
   */
  lemma WhitespaceIrrelevant(c: CharClass, stop: seq<Unit>, a: seq<Unit>, run: seq<Unit>, run': seq<Unit>, b: seq<Unit>)
    requires c.Valid() && stop != [] && Canon(c, stop, a, START).ok && NoStop(stop, a)
    requires run != [] && White(c, run) && run' != [] && White(c, run')
    requires NoStop(stop, a + run + b) && NoStop(stop, a + run' + b)
    ensures Canon(c, stop, a + run + b, START) == Canon(c, stop, a + run' + b, START)
  {
    var r := Canon(c, stop, a, START);
    var s := State(Escaped(a, START), r.quote, r.white);
    WhitespaceInContext(c, stop, a, run, b, s);
    WhitespaceInContext(c, stop, a, run', b, s);
  }

  lemma WhitespaceInContext(c: CharClass, stop: seq<Unit>, a: seq<Unit>, run: seq<Unit>, b: seq<Unit>, s: State)
    requires c.Valid() && stop != [] && Canon(c, stop, a, START).ok && NoStop(stop, a)
    requires run != [] && White(c, run) && NoStop(stop, a + run + b)
    requires s == State(Escaped(a, START), Canon(c, stop, a, START).quote, Canon(c, stop, a, START).white)
    ensures Canon(c, stop, a + run + b, START)
         == Prepend(Canon(c, stop, a, START).out,
                    Prepend(if s.white then [] else [SPACE], Canon(c, stop, b, State(false, Unescaped(s), true))))
  {
    JoinsFromWhole(stop, a, run, b);
    assert a + (run + b) == a + run + b;
    WhitespaceJoined(c, stop, a, run, b, run + b, s);
  }

  lemma WhitespaceJoined(c: CharClass, stop: seq<Unit>, a: seq<Unit>, run: seq<Unit>, b: seq<Unit>, y: seq<Unit>, s: State)
    requires c.Valid() && Canon(c, stop, a, START).ok && NoStop(stop, a) && y == run + b
    requires run != [] && White(c, run) && JoinsFree(stop, a, y) && JoinsFree(stop, run, b)
    requires s == State(Escaped(a, START), Canon(c, stop, a, START).quote, Canon(c, stop, a, START).white)
    ensures Canon(c, stop, a + y, START)
         == Prepend(Canon(c, stop, a, START).out,
                    Prepend(if s.white then [] else [SPACE], Canon(c, stop, b, State(false, Unescaped(s), true))))
  {
    WhiteIsPlain(c, run[0]);
    CanonAppend(c, stop, a, y, START);
    CanonWhiteRun(c, stop, run, b, s);
  }

  /** Where the scanner stands when it comes to the end of a first part of the text. */
  datatype Arrival = Arrival(state: State, out: seq<Unit>)

  /** The scan of a, in a text that goes on with unit next; None if a comment of a runs over its end. */
  function Lead(c: CharClass, a: seq<Unit>, next: Unit, s: State): Option<Arrival>
    decreases |a|
  {
    if a == [] then Some(Arrival(s, []))
    else
      var q := QuoteStep(s.quote, s.escaped, a[0]);
      match Jump(a + [next], q)
      case None => None
      case Some(n) =>
        if n < |a| then
          match Lead(c, a[n + 1..], next, Next(c, s, q, a[n]))
          case None => None
          case Some(r) => Some(r.(out := Emit(c, a[n], s.white) + r.out))
        else None
  }

  /** The stop string occurs as the end of a + y nowhere in a; y may be the stop string itself. */
  ghost predicate NotWithin(stop: seq<Unit>, a: seq<Unit>, y: seq<Unit>) {
    forall k | 0 <= k < |a| :: a[k..] + y != stop
  }

  lemma NotWithinTail(stop: seq<Unit>, a: seq<Unit>, y: seq<Unit>, n: nat)
    requires NotWithin(stop, a, y) && n <= |a|
    ensures NotWithin(stop, a[n..], y)
    ensures a != [] ==> a + y != stop
  {
    assert a[0..] == a;
    forall k | 0 <= k < |a[n..]|
      ensures a[n..][k..] + y != stop
    {
      assert a[n..][k..] == a[n + k..];
    }
  }

  lemma {:induction false} LeadSplit(c: CharClass, stop: seq<Unit>, a: seq<Unit>, y: seq<Unit>, s: State)
    requires y != [] && Lead(c, a, y[0], s).Some? && NotWithin(stop, a, y)
    ensures var r := Lead(c, a, y[0], s).value;
            Canon(c, stop, a + y, s) == Prepend(r.out, Canon(c, stop, y, r.state))
    decreases |a|
  {
    if a == [] {
      assert a + y == y;
      PrependNothing(Canon(c, stop, y, s));
    } else {
      var q := QuoteStep(s.quote, s.escaped, a[0]);
      var n := Jump(a + [y[0]], q).value;
      NotWithinTail(stop, a, y, n + 1);
      LeadStep(c, stop, a, y, s, q, n);
      LeadSplit(c, stop, a[n + 1..], y, Next(c, s, q, a[n]));
      LeadInside(c, stop, a, y, s, q, n, Lead(c, a, y[0], s).value);
    }
  }

  lemma LeadStep(c: CharClass, stop: seq<Unit>, a: seq<Unit>, y: seq<Unit>, s: State, q: Quote, n: nat)
    requires a != [] && y != [] && a + y != stop
    requires q == QuoteStep(s.quote, s.escaped, a[0]) && Jump(a + [y[0]], q) == Some(n)
    ensures Canon(c, stop, a + y, s)
         == Prepend(Emit(c, At(a + y, n), s.white), Canon(c, stop, After(a + y, n), Next(c, s, q, At(a + y, n))))
  {
    JumpLookahead(a, y, q);
    CanonUnfold(c, stop, a + y, s, q, n);
  }

  /**
   Where the scanner comes to the stop string at the end of a text, the scan is over, and
   nothing of the stop string is hashed.
   */
  lemma StopEndsScan(c: CharClass, stop: seq<Unit>, a: seq<Unit>, s: State)
    requires stop != [] && Lead(c, a, stop[0], s).Some?
    ensures var r := Lead(c, a, stop[0], s).value;
            Canon(c, stop, a + stop, s) == Scan(r.out, r.state.quote, r.state.white, true)
  {
    forall k | 0 <= k < |a|
      ensures a[k..] + stop != stop
    {
      assert |a[k..] + stop| > |stop|;
    }
    LeadSplit(c, stop, a, stop, s);
    var r := Lead(c, a, stop[0], s).value;
    assert r.out + [] == r.out;
  }

  /** The first part goes on behind the unit at n. */
  lemma LeadInside(c: CharClass, stop: seq<Unit>, a: seq<Unit>, y: seq<Unit>, s: State, q: Quote, n: nat, r: Arrival)
    requires n < |a| && y != []
    requires var next := Next(c, s, q, a[n]);
             var rest := Lead(c, a[n + 1..], y[0], next);
             && rest.Some? && r == Arrival(rest.value.state, Emit(c, a[n], s.white) + rest.value.out)
             && Canon(c, stop, a[n + 1..] + y, next) == Prepend(rest.value.out, Canon(c, stop, y, r.state))
    requires Canon(c, stop, a + y, s)
          == Prepend(Emit(c, At(a + y, n), s.white), Canon(c, stop, After(a + y, n), Next(c, s, q, At(a + y, n))))
    ensures Canon(c, stop, a + y, s) == Prepend(r.out, Canon(c, stop, y, r.state))
  {
    AfterAppend(a, y, n);
    var rest := Lead(c, a[n + 1..], y[0], Next(c, s, q, a[n])).value;
    PrependTwice(Emit(c, a[n], s.white), rest.out, Canon(c, stop, y, rest.state));
  }

  /** One unit of lookahead decides what a skip does. */
  lemma JumpLookahead(a: seq<Unit>, y: seq<Unit>, q: Quote)
    requires a != [] && y != [] && Jump(a + [y[0]], q).Some?
    ensures Jump(a + y, q) == Jump(a + [y[0]], q)
  {
    assert a + [y[0]] + y[1..] == a + y;
    JumpAppend(a + [y[0]], y[1..], q);
  }

  /** The scanner comes to the end of a outside quotes, about to look at a slash. */
  predicate AtCommentOpener(c: CharClass, a: seq<Unit>) {
    var r := Lead(c, a, SLASH, START);
    r.Some? && Unescaped(r.value.state).Outside?
  }

  /** A comment as the scanner delimits it, in front of b. */
  predicate IsComment(comment: seq<Unit>, b: seq<Unit>) {
    comment != [] && comment[0] == SLASH && Skip(comment + b) == Some(|comment|)
  }

  /** The scan from the unit behind a comment, which is hashed without a look at quotes. */
  function PastComment(c: CharClass, stop: seq<Unit>, b: seq<Unit>, s: State): Scan {
    Prepend(Emit(c, At(b, 0), s.white), Canon(c, stop, After(b, 0), Next(c, s, Outside, At(b, 0))))
  }

  lemma CommentInContext(c: CharClass, stop: seq<Unit>, a: seq<Unit>, comment: seq<Unit>, b: seq<Unit>)
    requires AtCommentOpener(c, a) && IsComment(comment, b) && JoinsFree(stop, a, comment + b)
    ensures var r := Lead(c, a, SLASH, START).value;
            Canon(c, stop, a + comment + b, START) == Prepend(r.out, PastComment(c, stop, b, r.state))
  {
    var r, y := Lead(c, a, SLASH, START).value, comment + b;
    LeadSplit(c, stop, a, y, START);
    assert a + comment + b == a + y;
    JoinsFreeTail(stop, a, y, 0);
    CanonUnfold(c, stop, y, r.state, Outside, |comment|);
    assert After(y, |comment|) == After(b, 0);
  }

  /** What a comment says never reaches the hash, where the scanner comes to its opener outside quotes. */
  lemma CommentIrrelevant(c: CharClass, stop: seq<Unit>, a: seq<Unit>, comment: seq<Unit>, comment': seq<Unit>, b: seq<Unit>)
    requires AtCommentOpener(c, a) && IsComment(comment, b) && IsComment(comment', b)
    requires JoinsFree(stop, a, comment + b) && JoinsFree(stop, a, comment' + b)
    ensures Canon(c, stop, a + comment + b, START) == Canon(c, stop, a + comment' + b, START)
  {
    CommentInContext(c, stop, a, comment, b);
    CommentInContext(c, stop, a, comment', b);
  }

  /** A text that opens a block comment and whose first terminator is its end is one comment. */
  lemma BlockCommentIs(t: seq<Unit>, b: seq<Unit>)
    requires BLOCK_COMMENT <= t && Find(t, BLOCK_END) == Some(|t| - 2)
    ensures IsComment(t, b)
  {
    FindAppend(t, b, BLOCK_END);
    assert t[1] == STAR;
    BlockOpener(t, b);
  }

  lemma BlockOpener(t: seq<Unit>, b: seq<Unit>)
    requires |t| >= 2 && t[0] == SLASH && t[1] == STAR
    ensures BLOCK_COMMENT <= t + b && !(LINE_COMMENT <= t + b)
  {
    assert (t + b)[1] == STAR;
  }

  /** A line comment is delimited by the first line feed. */
  lemma LineCommentIs(body: seq<Unit>, b: seq<Unit>)
    requires LF !in body && b != [] && b[0] == LF
    ensures IsComment(LINE_COMMENT + body, b)
  {
    var t := LINE_COMMENT + body + b;
    assert t[..2] == LINE_COMMENT;
    forall k | 0 <= k < |body| + 2
      ensures !([LF] <= t[k..])
    {
      assert t[k..][0] == t[k];
      assert k >= 2 ==> t[k] == body[k - 2];
    }
    assert t[|body| + 2..] == b;
    FindIs(t, [LF], |body| + 2);
  }

  /** The line feed that ends a line comment is hashed as whitespace, and the scan goes on behind it. */
  lemma LineCommentHashed(c: CharClass, stop: seq<Unit>, a: seq<Unit>, body: seq<Unit>, b: seq<Unit>)
    requires c.Valid() && AtCommentOpener(c, a) && LF !in body && b != [] && b[0] == LF
    requires JoinsFree(stop, a, LINE_COMMENT + body + b)
    ensures var r := Lead(c, a, SLASH, START).value;
            Canon(c, stop, a + (LINE_COMMENT + body) + b, START)
            == Prepend(r.out, Prepend(if r.state.white then [] else [SPACE],
                                      Canon(c, stop, b[1..], State(false, Outside, true))))
  {
    LineCommentIs(body, b);
    CommentInContext(c, stop, a, LINE_COMMENT + body, b);
    WhiteIsPlain(c, LF);
  }

  // ------------------------------------------------------------- the state at the end

  /** inWhitespace says that the last unit emitted is a space. */
  lemma {:induction false} WhiteIsLastSpace(c: CharClass, stop: seq<Unit>, t: seq<Unit>, s: State)
    requires c.Valid() && Canon(c, stop, t, s).ok
    ensures var r := Canon(c, stop, t, s);
            r.white == if r.out == [] then s.white else r.out[|r.out| - 1] == SPACE
    decreases |t|
  {
    if t != [] && t != stop {
      var q := QuoteStep(s.quote, s.escaped, t[0]);
      var n := Jump(t, q).value;
      var u := At(t, n);
      assert !(c.graph(SPACE) && c.space(SPACE));
      assert !(c.graph(u) && c.space(u));
      WhiteIsLastSpace(c, stop, After(t, n), Next(c, s, q, u));
    }
  }

  /** A text that ends in quotes with a backslash ends in a printable unit. */
  lemma {:induction false} BackslashNotWhite(c: CharClass, stop: seq<Unit>, t: seq<Unit>, s: State)
    requires c.Valid() && Canon(c, stop, t, s).ok && NoStop(stop, t)
    requires t != [] && t[|t| - 1] == BACKSLASH && !Canon(c, stop, t, s).quote.Outside?
    ensures !Canon(c, stop, t, s).white
    decreases |t|
  {
    assert t[0..] == t;
    var q := QuoteStep(s.quote, s.escaped, t[0]);
    var n := Jump(t, q).value;
    CanonUnfold(c, stop, t, s, q, n);
    var rest, next := After(t, n), Next(c, s, q, At(t, n));
    if n == |t| {
      EndsInBlockComment(t, q);
    } else if rest != [] {
      NoStopTail(stop, t, n + 1);
      assert rest[|rest| - 1] == t[|t| - 1];
      BackslashNotWhite(c, stop, rest, next);
    } else {
      assert At(t, n) == BACKSLASH;
    }
  }

  // ---------------------------------------------------------- the form of the output

  /** Text with its runs of whitespace squeezed to one space, and unprintable units dropped. */
  function Squeeze(c: CharClass, t: seq<Unit>, white: bool): seq<Unit> {
    if t == [] then []
    else Emit(c, t[0], white) + Squeeze(c, t[1..], WhitespaceAfter(c, t[0], white))
  }

  function WhiteBehind(c: CharClass, t: seq<Unit>, white: bool): bool {
    if t == [] then white else WhiteBehind(c, t[1..], WhitespaceAfter(c, t[0], white))
  }

  /** A unit that leaves the scanner in quotes q: no backslash, and no quote that ends them. */
  predicate Inert(q: Quote, u: Unit) {
    u != BACKSLASH && u != DOUBLE_QUOTE && (q.InSingle? ==> u != APOSTROPHE)
  }

  /** Inside quotes nothing is a comment: text is squeezed and hashed, up to the next quote or backslash. */
  lemma {:induction false} CanonInQuotes(c: CharClass, stop: seq<Unit>, t: seq<Unit>, y: seq<Unit>, s: State)
    requires !s.escaped && !s.quote.Outside? && (forall k | 0 <= k < |t| :: Inert(s.quote, t[k]))
    requires JoinsFree(stop, t, y)
    ensures Canon(c, stop, t + y, s)
         == Prepend(Squeeze(c, t, s.white), Canon(c, stop, y, State(false, s.quote, WhiteBehind(c, t, s.white))))
    decreases |t|
  {
    JoinsFreeTail(stop, t, y, 0);
    if t == [] {
      assert t + y == y;
      PrependNothing(Canon(c, stop, y, s));
    } else {
      TailAppend(t, y);
      JoinsFreeTail(stop, t, y, 1);
      CanonUnfold(c, stop, t + y, s, s.quote, 0);
      var next := Next(c, s, s.quote, t[0]);
      CanonInQuotes(c, stop, t[1..], y, next);
      PrependTwice(Emit(c, t[0], s.white), Squeeze(c, t[1..], next.white),
                   Canon(c, stop, y, State(false, s.quote, WhiteBehind(c, t[1..], next.white))));
    }
  }

  /** The quotes that a quote unit opens. */
  function Opened(u: Unit): Quote {
    if u == DOUBLE_QUOTE then InDouble else if u == APOSTROPHE then InSingle else Outside
  }

  /**
   A string literal without backslashes, and without double quotes if it is in apostrophes, is
   hashed squeezed but otherwise verbatim, comment openers included, and behind it the scan
   goes on outside quotes.
   */
  lemma StringLiteral(c: CharClass, stop: seq<Unit>, u: Unit, body: seq<Unit>, y: seq<Unit>, s: State)
    requires c.Valid() && !s.escaped && s.quote.Outside? && !Opened(u).Outside?
    requires (forall k | 0 <= k < |body| :: Inert(Opened(u), body[k])) && u !in body
    requires JoinsFree(stop, [u] + body + [u], y)
    ensures Canon(c, stop, [u] + (body + ([u] + y)), s)
         == Prepend([u], Prepend(Squeeze(c, body, false), Prepend([u], Canon(c, stop, y, State(false, Outside, false)))))
  {
    LiteralJoins(stop, u, body, y);
    var inside := State(false, Opened(u), false);
    var close := [u] + y;
    CanonUnfold(c, stop, [u] + (body + close), s, Opened(u), 0);
    TailAppend([u], body + close);
    CanonInQuotes(c, stop, body, close, inside);
    JumpPlain(close, Outside);
    CanonUnfold(c, stop, close, State(false, Opened(u), WhiteBehind(c, body, false)), Outside, 0);
    TailAppend([u], y);
  }

  lemma LiteralJoins(stop: seq<Unit>, u: Unit, body: seq<Unit>, y: seq<Unit>)
    requires JoinsFree(stop, [u] + body + [u], y)
    ensures [u] + (body + ([u] + y)) != stop && JoinsFree(stop, body, [u] + y) && [u] + y != stop
  {
    var literal := [u] + body + [u];
    assert literal[0..] + y == [u] + (body + ([u] + y));
    forall k | 0 <= k <= |body|
      ensures body[k..] + ([u] + y) != stop
    {
      assert literal[k + 1..] + y == body[k..] + ([u] + y);
    }
    assert body[|body|..] + ([u] + y) == [u] + y;
  }

  /** A canonical form is made of printable units and single spaces. */
  ghost predicate Normal(c: CharClass, out: seq<Unit>, white: bool) {
    && (forall k | 0 <= k < |out| :: c.graph(out[k]) || out[k] == SPACE)
    && (forall k | 0 < k < |out| :: out[k] == SPACE ==> out[k - 1] != SPACE)
    && (white && out != [] ==> out[0] != SPACE)
  }

  lemma {:induction false} CanonNormal(c: CharClass, stop: seq<Unit>, t: seq<Unit>, s: State)
    requires c.Valid()
    ensures Normal(c, Canon(c, stop, t, s).out, s.white)
    decreases |t|
  {
    if t != [] && t != stop {
      var q := QuoteStep(s.quote, s.escaped, t[0]);
      match Jump(t, q) {
        case None =>
        case Some(n) =>
          var next := Next(c, s, q, At(t, n));
          CanonNormal(c, stop, After(t, n), next);
          CanonUnfold(c, stop, t, s, q, n);
          NormalStep(c, At(t, n), s.white, Canon(c, stop, After(t, n), next).out);
      }
    }
  }

  lemma NormalStep(c: CharClass, u: Unit, white: bool, rest: seq<Unit>)
    requires c.Valid() && Normal(c, rest, WhitespaceAfter(c, u, white))
    ensures Normal(c, Emit(c, u, white) + rest, white)
  {
    assert !(c.graph(u) && c.space(u)) && !(c.graph(SPACE) && c.space(SPACE));
    var e := Emit(c, u, white);
    if e == [] {
      assert e + rest == rest;
    } else {
      assert forall k | 0 < k < |e + rest| :: (e + rest)[k] == rest[k - 1];
    }
  }
}
