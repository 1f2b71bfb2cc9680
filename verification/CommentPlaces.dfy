/**
 Where in a script the text of a comment never reaches the hash, as a condition on the text
 in front of it.
 */
module CommentPlaces {
  import opened Options
  import opened Text
  import opened Scanner
  import opened ScannerLaws
  import opened Verbatim
  import opened Signature

  /**
   What the scanner has done with a text in front of a slash: its state and output before the
   rest, which is what it cannot finish without more text, or finishes exactly at the end.
   */
  datatype Place = Place(state: State, out: seq<Unit>, rest: seq<Unit>)

  /** Whether the unit that the scanner hashes next, n units on, is in the text whatever follows. */
  predicate GoesOn(a: seq<Unit>, q: Quote) {
    a != [] && (a == [SLASH] ==> !q.Outside?) && Jump(a, q).Some? && Jump(a, q).value < |a|
  }

  function Ending(c: CharClass, a: seq<Unit>, s: State): Place
    decreases |a|
  {
    if a == [] then Place(s, [], [])
    else
      var q := QuoteStep(s.quote, s.escaped, a[0]);
      if GoesOn(a, q) then
        var n := Jump(a, q).value;
        var e := Ending(c, a[n + 1..], Next(c, s, q, a[n]));
        e.(out := Emit(c, a[n], s.white) + e.out)
      else Place(s, [], a)
  }

  lemma EndingGoesOn(c: CharClass, a: seq<Unit>, s: State, q: Quote, n: nat)
    requires a != [] && q == QuoteStep(s.quote, s.escaped, a[0]) && GoesOn(a, q) && Jump(a, q) == Some(n)
    ensures var e := Ending(c, a[n + 1..], Next(c, s, q, a[n]));
            Ending(c, a, s) == Place(e.state, Emit(c, a[n], s.white) + e.out, e.rest)
  {
  }

  /** The rest opens a comment: a line comment, perhaps with the slash to come, or a block comment. */
  lemma {:induction false} EndingShape(c: CharClass, a: seq<Unit>, s: State)
    ensures Shaped(Ending(c, a, s), a)
    decreases |a|
  {
    if a != [] {
      var q := QuoteStep(s.quote, s.escaped, a[0]);
      if GoesOn(a, q) {
        var n := Jump(a, q).value;
        EndingShape(c, a[n + 1..], Next(c, s, q, a[n]));
        EndingGoesOn(c, a, s, q, n);
        ShapedBehind(Ending(c, a[n + 1..], Next(c, s, q, a[n])), Ending(c, a, s), a, n + 1);
      } else {
        RestShape(a, q);
        assert Ending(c, a, s) == Place(s, [], a);
      }
    }
  }

  predicate Shaped(e: Place, a: seq<Unit>) {
    e.rest != [] ==>
      && QuoteStep(e.state.quote, e.state.escaped, e.rest[0]).Outside?
      && (InLine(e.rest) || InBlock(e.rest) || WholeBlock(e.rest))
      && a != [] && e.rest[|e.rest| - 1] == a[|a| - 1]
  }

  lemma ShapedBehind(e: Place, e': Place, a: seq<Unit>, n: nat)
    requires n <= |a| && Shaped(e, a[n..]) && e'.state == e.state && e'.rest == e.rest
    ensures Shaped(e', a)
  {
    if e.rest != [] {
      assert a[n..][|a[n..]| - 1] == a[|a| - 1];
    }
  }

  lemma RestShape(a: seq<Unit>, q: Quote)
    requires a != [] && !GoesOn(a, q)
    ensures q.Outside? && (InLine(a) || InBlock(a) || WholeBlock(a))
  {
    if LINE_COMMENT <= a && Find(a, [LF]).Some? {
      FindLeast(a, [LF]);
    }
  }

  predicate InLine(rest: seq<Unit>) {
    rest == [SLASH] || (LINE_COMMENT <= rest && Find(rest, [LF]).None?)
  }

  predicate InBlock(rest: seq<Unit>) {
    BLOCK_COMMENT <= rest && Find(rest, BLOCK_END).None?
  }

  predicate WholeBlock(rest: seq<Unit>) {
    BLOCK_COMMENT <= rest && Find(rest, BLOCK_END) == Some(|rest| - 2)
  }

  /** In front of a slash the scan does what Ending says, and goes on with the rest. */
  lemma {:induction false} EndingSplit(c: CharClass, stop: seq<Unit>, a: seq<Unit>, y: seq<Unit>, s: State)
    requires y != [] && y[0] == SLASH && JoinsFree(stop, a, y)
    ensures var e := Ending(c, a, s);
            Canon(c, stop, a + y, s) == Prepend(e.out, Canon(c, stop, e.rest + y, e.state))
    decreases |a|
  {
    if a == [] {
      assert a + y == y;
      PrependNothing(Canon(c, stop, y, s));
    } else {
      var q := QuoteStep(s.quote, s.escaped, a[0]);
      if GoesOn(a, q) {
        var n := Jump(a, q).value;
        var next := Next(c, s, q, a[n]);
        JoinsFreeTail(stop, a, y, n + 1);
        EndingStep(c, stop, a, y, s, q, n);
        EndingGoesOn(c, a, s, q, n);
        EndingSplit(c, stop, a[n + 1..], y, next);
        var e := Ending(c, a[n + 1..], next);
        PrependTwice(Emit(c, a[n], s.white), e.out, Canon(c, stop, e.rest + y, e.state));
      } else {
        PrependNothing(Canon(c, stop, a + y, s));
      }
    }
  }

  lemma EndingStep(c: CharClass, stop: seq<Unit>, a: seq<Unit>, y: seq<Unit>, s: State, q: Quote, n: nat)
    requires y != [] && y[0] == SLASH && a != [] && a + y != stop
    requires q == QuoteStep(s.quote, s.escaped, a[0]) && Jump(a, q) == Some(n) && n < |a|
    requires a == [SLASH] ==> !q.Outside?
    ensures Canon(c, stop, a + y, s)
         == Prepend(Emit(c, a[n], s.white), Canon(c, stop, a[n + 1..] + y, Next(c, s, q, a[n])))
  {
    JumpBeforeSlash(a, y, q);
    AfterAppend(a, y, n);
    var t := a + y;
    assert t[0] == a[0] && At(t, n) == a[n] && After(t, n) == a[n + 1..] + y;
    CanonUnfold(c, stop, t, s, q, n);
  }

  lemma JumpBeforeSlash(a: seq<Unit>, y: seq<Unit>, q: Quote)
    requires a != [] && y != [] && y[0] == SLASH && Jump(a, q).Some? && !(a == [SLASH] && q.Outside?)
    ensures Jump(a + y, q) == Jump(a, q)
  {
    if |a| == 1 {
      assert a == [a[0]] && (a + y)[0] == a[0];
    } else {
      JumpAppend(a, y, q);
    }
  }

  /** The scanner comes to the end of the text if and only if nothing is left. */
  lemma {:induction false} EndingIsLead(c: CharClass, a: seq<Unit>, s: State)
    ensures var e := Ending(c, a, s);
            Lead(c, a, SLASH, s) == if e.rest == [] then Some(Arrival(e.state, e.out)) else None
    decreases |a|
  {
    if a != [] {
      var q := QuoteStep(s.quote, s.escaped, a[0]);
      if GoesOn(a, q) {
        var n := Jump(a, q).value;
        JumpBeforeSlash(a, [SLASH], q);
        LeadGoesOn(c, a, s, q, n);
        EndingGoesOn(c, a, s, q, n);
        EndingIsLead(c, a[n + 1..], Next(c, s, q, a[n]));
      } else {
        LeadStops(a, q);
        assert Ending(c, a, s).rest == a;
      }
    }
  }

  lemma LeadGoesOn(c: CharClass, a: seq<Unit>, s: State, q: Quote, n: nat)
    requires a != [] && q == QuoteStep(s.quote, s.escaped, a[0]) && n < |a| && Jump(a + [SLASH], q) == Some(n)
    ensures var r := Lead(c, a[n + 1..], SLASH, Next(c, s, q, a[n]));
            Lead(c, a, SLASH, s)
            == if r.Some? then Some(Arrival(r.value.state, Emit(c, a[n], s.white) + r.value.out)) else None
  {
  }

  lemma LeadStops(a: seq<Unit>, q: Quote)
    requires a != [] && !GoesOn(a, q)
    ensures var n := Jump(a + [SLASH], q);
            n.None? || n.value >= |a|
  {
    var t := a + [SLASH];
    RestShape(a, q);
    if a == [SLASH] {
      assert t == LINE_COMMENT;
      FindLineFeed(t);
    } else if Jump(a, q).Some? {
      JumpBeforeSlash(a, [SLASH], q);
    } else {
      assert t[..2] == a[..2];
      NotFoundInside(a, if LINE_COMMENT <= a then [LF] else BLOCK_END);
    }
  }

  lemma FindLineFeed(t: seq<Unit>)
    ensures Find(t, [LF]).Some? <==> LF in t
  {
    FindLeast(t, [LF]);
    forall k | 0 <= k < |t|
      ensures [LF] <= t[k..] <==> t[k] == LF
    {
      assert t[k..][0] == t[k];
    }
  }

  lemma NotFoundInside(a: seq<Unit>, s: seq<Unit>)
    requires Find(a, s).None? && s != []
    ensures Find(a + [SLASH], s).Some? ==> Find(a + [SLASH], s).value + |s| > |a|
  {
    var t := a + [SLASH];
    FindLeast(a, s);
    FindLeast(t, s);
    forall k | 0 <= k && k + |s| <= |a|
      ensures !(s <= t[k..])
    {
      assert t[k..][..|s|] == a[k..][..|s|];
    }
  }

  /** All that matters about the stop string here. */
  predicate LongStop(stop: seq<Unit>) {
    |stop| >= 10 && stop[0] == CR
  }

  lemma StopIsLong()
    ensures LongStop(STOP)
  {
    BeginChars();
  }

  // -------------------------------------------------------------- the two theorems

  /** A block comment put behind the text is skipped: at its own opener, or inside another one. */
  predicate SkipsBlock(c: CharClass, a: seq<Unit>) {
    var e := Ending(c, a, START);
    if e.rest == [] then Unescaped(e.state).Outside? else InBlock(e.rest) && a[|a| - 1] != STAR
  }

  /** A line comment put behind the text is skipped: at its own opener, or inside another one. */
  predicate SkipsLine(c: CharClass, a: seq<Unit>) {
    var e := Ending(c, a, START);
    if e.rest == [] then Unescaped(e.state).Outside? else InLine(e.rest)
  }

  predicate IsBlockComment(comment: seq<Unit>) {
    BLOCK_COMMENT <= comment && Find(comment, BLOCK_END) == Some(|comment| - 2)
  }

  /** What the scan of a text with a comment behind it comes down to. */
  lemma ScanOf(c: CharClass, a: seq<Unit>, comment: seq<Unit>, b: seq<Unit>)
    requires comment != [] && comment[0] == SLASH && JoinsFree(STOP, a, comment + b)
    ensures var e := Ending(c, a, START);
            ScriptScan(c, a + comment + b) == Prepend(e.out, Canon(c, STOP, e.rest + (comment + b), e.state))
  {
    EndingSplit(c, STOP, a, comment + b, START);
    Regroup(a, comment, b, comment + b);
  }

  lemma SkipsBlockIs(c: CharClass, a: seq<Unit>)
    ensures AtCommentOpener(c, a) <==> Ending(c, a, START).rest == [] && SkipsBlock(c, a)
    ensures AtCommentOpener(c, a) <==> Ending(c, a, START).rest == [] && SkipsLine(c, a)
  {
    EndingIsLead(c, a, START);
  }

  /** Inside an open block comment another one only ends it. */
  lemma BlockInBlock(c: CharClass, stop: seq<Unit>, rest: seq<Unit>, comment: seq<Unit>, b: seq<Unit>, s: State)
    requires LongStop(stop) && InBlock(rest) && rest[|rest| - 1] != STAR && IsBlockComment(comment)
    requires QuoteStep(s.quote, s.escaped, SLASH).Outside?
    ensures Canon(c, stop, rest + (comment + b), s) == PastComment(c, stop, b, s)
  {
    var t := rest + comment;
    FindBehind(rest, comment);
    BlockCommentIs(t, b);
    assert rest + (comment + b) == t + b;
    FindLeast(comment, BLOCK_END);
    assert (t + b)[0] == SLASH;
    CanonUnfold(c, stop, t + b, s, Outside, |t|);
    assert After(t + b, |t|) == After(b, 0);
  }

  lemma FindBehind(rest: seq<Unit>, comment: seq<Unit>)
    requires Find(rest, BLOCK_END).None? && rest != [] && rest[|rest| - 1] != STAR
    requires Find(comment, BLOCK_END) == Some(|comment| - 2)
    ensures Find(rest + comment, BLOCK_END) == Some(|rest| + |comment| - 2)
  {
    TerminatorFree(rest);
    TerminatorFirst(comment);
    TerminatorAt(rest + comment, |rest| + |comment| - 2);
  }

  lemma TerminatorFree(t: seq<Unit>)
    requires Find(t, BLOCK_END).None?
    ensures forall k | 0 <= k < |t| - 1 :: t[k] != STAR || t[k + 1] != SLASH
  {
    FindLeast(t, BLOCK_END);
    forall k | 0 <= k < |t| - 1
      ensures t[k] != STAR || t[k + 1] != SLASH
    {
      assert t[k..][..2] == [t[k], t[k + 1]];
    }
  }

  lemma TerminatorFirst(t: seq<Unit>)
    requires Find(t, BLOCK_END) == Some(|t| - 2)
    ensures t[|t| - 2] == STAR && t[|t| - 1] == SLASH
    ensures forall k | 0 <= k < |t| - 2 :: t[k] != STAR || t[k + 1] != SLASH
  {
    FindLeast(t, BLOCK_END);
    assert t[|t| - 2..] == [t[|t| - 2], t[|t| - 1]];
    forall k | 0 <= k < |t| - 2
      ensures t[k] != STAR || t[k + 1] != SLASH
    {
      assert t[k..][..2] == [t[k], t[k + 1]];
    }
  }

  lemma TerminatorAt(t: seq<Unit>, f: nat)
    requires f + 2 == |t| && t[f] == STAR && t[f + 1] == SLASH
    requires forall k | 0 <= k < f :: t[k] != STAR || t[k + 1] != SLASH
    ensures Find(t, BLOCK_END) == Some(f)
  {
    forall k | 0 <= k < f
      ensures !(BLOCK_END <= t[k..])
    {
      assert t[k..][0] == t[k] && t[k..][1] == t[k + 1];
    }
    assert t[f..] == BLOCK_END;
    FindIs(t, BLOCK_END, f);
  }

  /** Inside an open line comment another one changes nothing. */
  lemma LineInLine(c: CharClass, stop: seq<Unit>, rest: seq<Unit>, body: seq<Unit>, b: seq<Unit>, s: State)
    requires LongStop(stop) && InLine(rest) && LF !in body && b != [] && b[0] == LF
    requires QuoteStep(s.quote, s.escaped, SLASH).Outside?
    ensures Canon(c, stop, rest + (LINE_COMMENT + body + b), s) == PastComment(c, stop, b, s)
  {
    var t := rest + (LINE_COMMENT + body);
    FindLineFeed(rest);
    assert t[..2] == LINE_COMMENT;
    assert t == LINE_COMMENT + t[2..];
    LineCommentIs(t[2..], b);
    assert rest + (LINE_COMMENT + body + b) == t + b;
    assert (t + b)[0] == SLASH;
    CanonUnfold(c, stop, t + b, s, Outside, |t|);
    assert After(t + b, |t|) == After(b, 0);
  }

  lemma BlockSkipped(c: CharClass, a: seq<Unit>, comment: seq<Unit>, comment': seq<Unit>, b: seq<Unit>)
    requires SkipsBlock(c, a) && IsBlockComment(comment) && IsBlockComment(comment')
    ensures ScriptScan(c, a + comment + b) == ScriptScan(c, a + comment' + b)
  {
    var e := Ending(c, a, START);
    SkipsBlockIs(c, a);
    if e.rest == [] {
      BlockCommentNotHashed(c, a, comment, comment', b);
    } else {
      BlockInside(c, a, comment, b);
      BlockInside(c, a, comment', b);
    }
  }

  lemma BlockInside(c: CharClass, a: seq<Unit>, comment: seq<Unit>, b: seq<Unit>)
    requires Ending(c, a, START).rest != [] && SkipsBlock(c, a) && IsBlockComment(comment)
    ensures var e := Ending(c, a, START);
            ScriptScan(c, a + comment + b) == Prepend(e.out, PastComment(c, STOP, b, e.state))
  {
    var e := Ending(c, a, START);
    EndingShape(c, a, START);
    CommentJoinsFree(a, comment, b);
    ScanOf(c, a, comment, b);
    StopIsLong();
    BlockInBlock(c, STOP, e.rest, comment, b, e.state);
  }

  lemma LineSkipped(c: CharClass, a: seq<Unit>, body: seq<Unit>, body': seq<Unit>, b: seq<Unit>)
    requires SkipsLine(c, a) && LF !in body && LF !in body' && b != [] && b[0] == LF
    ensures ScriptScan(c, a + (LINE_COMMENT + body) + b) == ScriptScan(c, a + (LINE_COMMENT + body') + b)
  {
    var e := Ending(c, a, START);
    SkipsBlockIs(c, a);
    if e.rest == [] {
      LineCommentNotHashed(c, a, body, body', b);
    } else {
      LineInside(c, a, body, b);
      LineInside(c, a, body', b);
    }
  }

  lemma LineInside(c: CharClass, a: seq<Unit>, body: seq<Unit>, b: seq<Unit>)
    requires Ending(c, a, START).rest != [] && SkipsLine(c, a) && LF !in body && b != [] && b[0] == LF
    ensures var e := Ending(c, a, START);
            ScriptScan(c, a + (LINE_COMMENT + body) + b) == Prepend(e.out, PastComment(c, STOP, b, e.state))
  {
    var e := Ending(c, a, START);
    EndingShape(c, a, START);
    LineCommentJoinsFree(a, LINE_COMMENT + body, b);
    ScanOf(c, a, LINE_COMMENT + body, b);
    StopIsLong();
    LineInLine(c, STOP, e.rest, body, b, e.state);
  }

  // ------------------------------------------------------ where comments are not skipped

  const STAR_SLASH: seq<Unit> := [STAR, SLASH]
  const EMPTY_BLOCK: seq<Unit> := [SLASH, STAR, STAR, SLASH]
  const TWO_LINE_BLOCK: seq<Unit> := [SLASH, STAR, LF, STAR, SLASH]

  lemma BlocksAre()
    ensures IsBlockComment(EMPTY_BLOCK) && IsBlockComment(TWO_LINE_BLOCK)
  {
    TerminatorAt(EMPTY_BLOCK, 2);
    TerminatorAt(TWO_LINE_BLOCK, 3);
  }

  /** A short text of printable units and line feeds in which no comment opens. */
  predicate Simple(c: CharClass, t: seq<Unit>) {
    && |t| < 10
    && forall k | 0 <= k < |t| ::
         && (c.graph(t[k]) || t[k] == LF)
         && t[k] != BACKSLASH && t[k] != DOUBLE_QUOTE && t[k] != APOSTROPHE
         && (t[k] == SLASH && k + 1 < |t| ==> t[k + 1] != SLASH && t[k + 1] != STAR)
  }

  lemma ShortNoStop(stop: seq<Unit>, t: seq<Unit>)
    requires LongStop(stop) && |t| < 10
    ensures NoStop(stop, t)
  {
    forall k | 0 <= k < |t|
      ensures t[k..] != stop
    {
      assert |t[k..]| < |stop|;
    }
  }

  lemma {:induction false} SimpleOpensNothing(c: CharClass, t: seq<Unit>)
    requires Simple(c, t)
    ensures NoOpener(t, Outside, false) && QuotesBehind(t, Outside, false) == Outside
  {
    if t != [] {
      forall k | 0 <= k < |t| - 1
        ensures t[1..][k] == t[k + 1]
      {
      }
      SimpleOpensNothing(c, t[1..]);
    }
  }

  lemma SimpleScan(c: CharClass, stop: seq<Unit>, t: seq<Unit>, white: bool)
    requires LongStop(stop) && c.Valid() && Simple(c, t)
    ensures Canon(c, stop, t, State(false, Outside, white))
         == Scan(Squeeze(c, t, white), Outside, WhiteBehind(c, t, white), true)
  {
    ShortNoStop(stop, t);
    SimpleOpensNothing(c, t);
    IsVerbatim(c, stop, t, State(false, Outside, white));
  }

  lemma SqueezePrintable(c: CharClass, u: Unit, t: seq<Unit>, white: bool)
    requires c.graph(u)
    ensures Squeeze(c, [u] + t, white) == [u] + Squeeze(c, t, false)
  {
    assert ([u] + t)[1..] == t;
  }

  /** A line feed behind a printable unit is one more unit. */
  lemma SqueezeFeed(c: CharClass, t: seq<Unit>)
    requires c.Valid() && t != [] && c.graph(t[0])
    ensures |Squeeze(c, [LF] + t, false)| == 1 + |Squeeze(c, t, false)|
  {
    WhiteIsPlain(c, LF);
    assert ([LF] + t)[1..] == t;
    assert t == [t[0]] + t[1..];
    SqueezePrintable(c, t[0], t[1..], true);
    SqueezePrintable(c, t[0], t[1..], false);
  }

  /** The unit behind a skip is hashed as it is, and what follows is scanned. */
  lemma PastSimple(c: CharClass, stop: seq<Unit>, t: seq<Unit>, s: State)
    requires LongStop(stop) && c.Valid() && t != [] && c.graph(t[0]) && t[0] != BACKSLASH && Simple(c, t[1..])
    ensures PastComment(c, stop, t, s)
         == Scan([t[0]] + Squeeze(c, t[1..], false), Outside, WhiteBehind(c, t[1..], false), true)
  {
    SimpleScan(c, stop, t[1..], false);
  }

  /** What the scan of the rest with a text behind it comes down to, if the rest is a whole comment. */
  lemma PastRest(c: CharClass, stop: seq<Unit>, rest: seq<Unit>, t: seq<Unit>, s: State)
    requires LongStop(stop) && WholeBlock(rest) && QuoteStep(s.quote, s.escaped, SLASH).Outside?
    ensures Canon(c, stop, rest + t, s) == PastComment(c, stop, t, s)
  {
    BlockCommentIs(rest, t);
    assert (rest + t)[0] == SLASH;
    CanonUnfold(c, stop, rest + t, s, Outside, |rest|);
    assert After(rest + t, |rest|) == After(t, 0);
  }

  /** With a star at its end, the slash of another comment completes the rest. */
  lemma ClosedBySlash(rest: seq<Unit>)
    requires InBlock(rest) && rest[|rest| - 1] == STAR
    ensures WholeBlock(rest + [SLASH])
  {
    TerminatorFree(rest);
    TerminatorAt(rest + [SLASH], |rest| - 1);
    assert (rest + [SLASH])[..2] == rest[..2];
  }

  /** Two scans that differ. */
  predicate Differ(r: Scan, r': Scan) {
    r.ok != r'.ok || |r.out| != |r'.out|
  }

  lemma DifferBehind(out: seq<Unit>, r: Scan, r': Scan)
    requires Differ(r, r')
    ensures Prepend(out, r) != Prepend(out, r')
  {
    assert |Prepend(out, r).out| == |out| + |r.out| && |Prepend(out, r').out| == |out| + |r'.out|;
  }

  /** In quotes a comment is text. */
  lemma TextInQuotes(c: CharClass, stop: seq<Unit>, t: seq<Unit>, s: State)
    requires LongStop(stop) && |t| < 10 && !Unescaped(s).Outside? && forall k | 0 <= k < |t| :: Inert(s.quote, t[k])
    ensures Canon(c, stop, t, s).ok && Canon(c, stop, t, s).out == Squeeze(c, t, s.white)
  {
    ShortNoStop(stop, t);
    forall k | 0 <= k <= |t|
      ensures t[k..] + [] != stop
    {
      assert |t[k..] + []| < |stop|;
    }
    CanonInQuotes(c, stop, t, [], s);
    var out, end := Squeeze(c, t, s.white), State(false, s.quote, WhiteBehind(c, t, s.white));
    assert t + [] == t && out + [] == out;
    assert Canon(c, stop, [], end) == Scan([], end.quote, end.white, true);
    assert Canon(c, stop, t + [], s) == Prepend(out, Canon(c, stop, [], end));
  }

  /** A comment that does not end. */
  lemma Unended(c: CharClass, stop: seq<Unit>, t: seq<Unit>, s: State)
    requires LongStop(stop) && QuoteStep(s.quote, s.escaped, SLASH).Outside?
    requires InBlock(t) || (LINE_COMMENT <= t && LF !in t)
    ensures !Canon(c, stop, t, s).ok
  {
    assert t[0] == SLASH;
    FindLineFeed(t);
  }

  /** Inside a line comment only a line feed ends what does not end by itself. */
  lemma BlockInLine(c: CharClass, stop: seq<Unit>, rest: seq<Unit>, s: State)
    requires LongStop(stop) && c.Valid() && InLine(rest) && QuoteStep(s.quote, s.escaped, SLASH).Outside?
    ensures !Canon(c, stop, rest + EMPTY_BLOCK, s).ok && Canon(c, stop, rest + TWO_LINE_BLOCK, s).ok
  {
    FindLineFeed(rest);
    var t := rest + EMPTY_BLOCK;
    assert t[..2] == LINE_COMMENT;
    Unended(c, stop, t, s);
    var opening: seq<Unit> := [SLASH, STAR];
    assert rest + TWO_LINE_BLOCK == rest + opening + ([LF] + STAR_SLASH);
    EndedByFeed(c, stop, rest + opening, STAR_SLASH, s);
  }

  lemma EndedByFeed(c: CharClass, stop: seq<Unit>, t: seq<Unit>, b: seq<Unit>, s: State)
    requires LongStop(stop) && c.Valid() && Simple(c, b) && QuoteStep(s.quote, s.escaped, SLASH).Outside?
    requires |t| >= 2 && t[0] == SLASH && t[1] == SLASH && LF !in t
    ensures Canon(c, stop, t + ([LF] + b), s).ok
  {
    var y := [LF] + b;
    assert t == LINE_COMMENT + t[2..];
    LineCommentIs(t[2..], y);
    assert (t + y)[0] == SLASH && y[1..] == b;
    CanonUnfold(c, stop, t + y, s, Outside, |t|);
    assert After(t + y, |t|) == After(y, 0) == b;
    SimpleScan(c, stop, b, WhitespaceAfter(c, LF, s.white));
  }

  /** Where they are not skipped, an empty block comment and one of two lines are told apart. */
  lemma BlocksDiffer(c: CharClass, stop: seq<Unit>, rest: seq<Unit>, s: State)
    requires LongStop(stop) && c.Valid()
    requires rest == [] ==> !Unescaped(s).Outside?
    requires rest != [] ==> QuoteStep(s.quote, s.escaped, SLASH).Outside? && rest[0] == SLASH
    requires rest != [] ==> InLine(rest) || WholeBlock(rest) || (InBlock(rest) && rest[|rest| - 1] == STAR)
    ensures Differ(Canon(c, stop, rest + EMPTY_BLOCK, s), Canon(c, stop, rest + TWO_LINE_BLOCK, s))
  {
    BlockLengths(c);
    if rest == [] {
      SqueezePrintable(c, SLASH, EMPTY_BLOCK[1..], s.white);
      SqueezePrintable(c, SLASH, TWO_LINE_BLOCK[1..], s.white);
      assert EMPTY_BLOCK == [SLASH] + EMPTY_BLOCK[1..] && TWO_LINE_BLOCK == [SLASH] + TWO_LINE_BLOCK[1..];
      QuotedDiffer(c, stop, EMPTY_BLOCK, TWO_LINE_BLOCK, s);
    } else if InLine(rest) {
      BlockInLine(c, stop, rest, s);
    } else if WholeBlock(rest) {
      BehindDiffer(c, stop, rest, EMPTY_BLOCK, TWO_LINE_BLOCK, s);
    } else {
      assert EMPTY_BLOCK[1..][1..] == STAR_SLASH && TWO_LINE_BLOCK[1..][1..] == [LF] + STAR_SLASH;
      assert EMPTY_BLOCK == [SLASH] + EMPTY_BLOCK[1..] && TWO_LINE_BLOCK == [SLASH] + TWO_LINE_BLOCK[1..];
      ClosedDiffer(c, stop, rest, EMPTY_BLOCK[1..], TWO_LINE_BLOCK[1..], s);
    }
  }

  lemma QuotedDiffer(c: CharClass, stop: seq<Unit>, t: seq<Unit>, t': seq<Unit>, s: State)
    requires LongStop(stop) && |t| < 10 && |t'| < 10 && !Unescaped(s).Outside?
    requires forall k | 0 <= k < |t| :: Inert(s.quote, t[k])
    requires forall k | 0 <= k < |t'| :: Inert(s.quote, t'[k])
    requires |Squeeze(c, t, s.white)| != |Squeeze(c, t', s.white)|
    ensures Differ(Canon(c, stop, [] + t, s), Canon(c, stop, [] + t', s))
  {
    assert [] + t == t && [] + t' == t';
    TextInQuotes(c, stop, t, s);
    TextInQuotes(c, stop, t', s);
  }

  /** A text that goes on behind a skip: its first unit is hashed as it is. */
  predicate SimpleBehind(c: CharClass, t: seq<Unit>) {
    t != [] && c.graph(t[0]) && t[0] != BACKSLASH && Simple(c, t[1..])
  }

  lemma BehindDiffer(c: CharClass, stop: seq<Unit>, rest: seq<Unit>, t: seq<Unit>, t': seq<Unit>, s: State)
    requires LongStop(stop) && c.Valid() && WholeBlock(rest) && QuoteStep(s.quote, s.escaped, SLASH).Outside?
    requires SimpleBehind(c, t) && SimpleBehind(c, t')
    requires |Squeeze(c, t[1..], false)| != |Squeeze(c, t'[1..], false)|
    ensures Differ(Canon(c, stop, rest + t, s), Canon(c, stop, rest + t', s))
  {
    PastRest(c, stop, rest, t, s);
    PastRest(c, stop, rest, t', s);
    PastSimple(c, stop, t, s);
    PastSimple(c, stop, t', s);
  }

  lemma ClosedDiffer(c: CharClass, stop: seq<Unit>, rest: seq<Unit>, t: seq<Unit>, t': seq<Unit>, s: State)
    requires LongStop(stop) && c.Valid()
    requires InBlock(rest) && rest[|rest| - 1] == STAR && QuoteStep(s.quote, s.escaped, SLASH).Outside?
    requires SimpleBehind(c, t) && SimpleBehind(c, t')
    requires |Squeeze(c, t[1..], false)| != |Squeeze(c, t'[1..], false)|
    ensures Differ(Canon(c, stop, rest + ([SLASH] + t), s), Canon(c, stop, rest + ([SLASH] + t'), s))
  {
    var closed := rest + [SLASH];
    ClosedBySlash(rest);
    BehindDiffer(c, stop, closed, t, t', s);
    Regroup(rest, [SLASH], t, [SLASH] + t);
    Regroup(rest, [SLASH], t', [SLASH] + t');
  }

  lemma BlockLengths(c: CharClass)
    requires c.Valid()
    ensures |Squeeze(c, [LF] + STAR_SLASH, false)| == 1 + |Squeeze(c, STAR_SLASH, false)|
    ensures |Squeeze(c, TWO_LINE_BLOCK[1..], false)| == 1 + |Squeeze(c, EMPTY_BLOCK[1..], false)|
  {
    SqueezeFeed(c, STAR_SLASH);
    assert EMPTY_BLOCK[1..] == [STAR] + STAR_SLASH && TWO_LINE_BLOCK[1..] == [STAR] + ([LF] + STAR_SLASH);
    SqueezePrintable(c, STAR, STAR_SLASH, false);
    SqueezePrintable(c, STAR, [LF] + STAR_SLASH, false);
  }

  predicate SameScan(c: CharClass, a: seq<Unit>, comment: seq<Unit>, comment': seq<Unit>, b: seq<Unit>) {
    ScriptScan(c, a + comment + b) == ScriptScan(c, a + comment' + b)
  }

  /**
   What a block comment says never reaches the hash if and only if, at the end of the text in
   front of it, the scanner looks for a comment outside quotes, or is inside a block comment
   that the comment's own slash does not end.
   */
  lemma BlockCommentExact(c: CharClass, a: seq<Unit>)
    requires c.Valid()
    ensures SkipsBlock(c, a) <==>
            forall comment, comment', b | IsBlockComment(comment) && IsBlockComment(comment') :: SameScan(c, a, comment, comment', b)
  {
    if SkipsBlock(c, a) {
      forall comment, comment', b | IsBlockComment(comment) && IsBlockComment(comment')
        ensures SameScan(c, a, comment, comment', b)
      {
        BlockSkipped(c, a, comment, comment', b);
      }
    } else {
      BlocksAre();
      BlocksTold(c, a);
      assert !SameScan(c, a, EMPTY_BLOCK, TWO_LINE_BLOCK, []);
    }
  }

  lemma ScanToEnd(c: CharClass, a: seq<Unit>, comment: seq<Unit>)
    requires IsBlockComment(comment)
    ensures var e := Ending(c, a, START);
            ScriptScan(c, a + comment + []) == Prepend(e.out, Canon(c, STOP, e.rest + comment, e.state))
  {
    CommentJoinsFree(a, comment, []);
    ScanOf(c, a, comment, []);
    assert comment + [] == comment;
  }

  lemma BlocksTold(c: CharClass, a: seq<Unit>)
    requires c.Valid() && !SkipsBlock(c, a)
    ensures ScriptScan(c, a + EMPTY_BLOCK + []) != ScriptScan(c, a + TWO_LINE_BLOCK + [])
  {
    var e := Ending(c, a, START);
    EndingShape(c, a, START);
    BlocksAre();
    ScanToEnd(c, a, EMPTY_BLOCK);
    ScanToEnd(c, a, TWO_LINE_BLOCK);
    StopIsLong();
    BlocksDiffer(c, STOP, e.rest, e.state);
    DifferBehind(e.out, Canon(c, STOP, e.rest + EMPTY_BLOCK, e.state), Canon(c, STOP, e.rest + TWO_LINE_BLOCK, e.state));
  }

  // ---------------------------------------------------------- the same for line comments

  const X: seq<Unit> := ['x' as int]
  const FEED: seq<Unit> := [LF]

  /** Inside a block comment only a terminator ends what does not end by itself. */
  lemma LineInBlock(c: CharClass, stop: seq<Unit>, rest: seq<Unit>, s: State)
    requires LongStop(stop) && c.Valid() && InBlock(rest) && rest[|rest| - 1] != STAR && QuoteStep(s.quote, s.escaped, SLASH).Outside?
    ensures !Canon(c, stop, rest + (LINE_COMMENT + [] + FEED), s).ok
    ensures Canon(c, stop, rest + (LINE_COMMENT + STAR_SLASH + FEED), s).ok
  {
    var ended := LINE_COMMENT + STAR_SLASH;
    TerminatorAt(ended, 2);
    FindBehind(rest, ended);
    PastRest(c, stop, rest + ended, FEED, s);
    assert rest + ended + FEED == rest + (ended + FEED);
    NotFoundBehind(rest, LINE_COMMENT + [] + FEED);
    Unended(c, stop, rest + (LINE_COMMENT + [] + FEED), s);
  }

  lemma NotFoundBehind(rest: seq<Unit>, y: seq<Unit>)
    requires InBlock(rest) && rest[|rest| - 1] != STAR && STAR !in y
    ensures InBlock(rest + y)
  {
    var t := rest + y;
    FindLeast(t, BLOCK_END);
    assert t[|rest| - 1..][0] == rest[|rest| - 1];
    NoneInside(rest, y, BLOCK_END);
    forall k | |rest| <= k < |t|
      ensures !(BLOCK_END <= t[k..])
    {
      assert t[k..][0] == t[k] == y[k - |rest|];
    }
    assert t[..2] == rest[..2];
  }

  /** Where they are not skipped, two line comments are told apart. */
  lemma LinesDiffer(c: CharClass, stop: seq<Unit>, rest: seq<Unit>, s: State) returns (body: seq<Unit>)
    requires LongStop(stop) && c.Valid()
    requires rest == [] ==> !Unescaped(s).Outside?
    requires rest != [] ==> QuoteStep(s.quote, s.escaped, SLASH).Outside? && rest[0] == SLASH
    requires rest != [] ==> WholeBlock(rest) || InBlock(rest)
    ensures LF !in body
    ensures Differ(Canon(c, stop, rest + (LINE_COMMENT + [] + FEED), s), Canon(c, stop, rest + (LINE_COMMENT + body + FEED), s))
  {
    var y, y' := LINE_COMMENT + [] + FEED, LINE_COMMENT + X + FEED;
    LineLengths(c, s.white);
    body := X;
    if rest == [] {
      QuotedDiffer(c, stop, y, y', s);
    } else if WholeBlock(rest) {
      assert y[1..] == [SLASH] + FEED && y'[1..] == [SLASH] + (X + FEED);
      BehindDiffer(c, stop, rest, y, y', s);
    } else if rest[|rest| - 1] == STAR {
      assert y[1..][1..] == FEED && y'[1..][1..] == X + FEED;
      assert y == [SLASH] + y[1..] && y' == [SLASH] + y'[1..];
      ClosedDiffer(c, stop, rest, y[1..], y'[1..], s);
    } else {
      body := STAR_SLASH;
      LineInBlock(c, stop, rest, s);
    }
  }

  lemma LineLengths(c: CharClass, white: bool)
    requires c.Valid()
    ensures var y, y' := LINE_COMMENT + [] + FEED, LINE_COMMENT + X + FEED;
            && |Squeeze(c, y', white)| == 1 + |Squeeze(c, y, white)|
            && |Squeeze(c, y'[1..], false)| == 1 + |Squeeze(c, y[1..], false)|
            && |Squeeze(c, X + FEED, false)| == 1 + |Squeeze(c, FEED, false)|
  {
    var y, y' := LINE_COMMENT + [] + FEED, LINE_COMMENT + X + FEED;
    SqueezePrintable(c, 'x' as int, FEED, false);
    assert y[1..] == [SLASH] + FEED && y'[1..] == [SLASH] + (X + FEED);
    SqueezePrintable(c, SLASH, FEED, false);
    SqueezePrintable(c, SLASH, X + FEED, false);
    assert y == [SLASH] + y[1..] && y' == [SLASH] + y'[1..];
    SqueezePrintable(c, SLASH, y[1..], white);
    SqueezePrintable(c, SLASH, y'[1..], white);
  }

  predicate EndsLine(b: seq<Unit>) {
    b != [] && b[0] == LF
  }

  /**
   What a line comment says never reaches the hash if and only if, at the end of the text in
   front of it, the scanner looks for a comment outside quotes, or is inside a line comment.
   */
  lemma LineCommentExact(c: CharClass, a: seq<Unit>)
    requires c.Valid()
    ensures SkipsLine(c, a) <==>
            forall body, body', b | LF !in body && LF !in body' && EndsLine(b) ::
              SameScan(c, a, LINE_COMMENT + body, LINE_COMMENT + body', b)
  {
    if SkipsLine(c, a) {
      forall body, body', b | LF !in body && LF !in body' && EndsLine(b)
        ensures SameScan(c, a, LINE_COMMENT + body, LINE_COMMENT + body', b)
      {
        LineSkipped(c, a, body, body', b);
      }
    } else {
      var body := LinesTold(c, a);
      assert EndsLine(FEED) && LF !in [];
      assert !SameScan(c, a, LINE_COMMENT + [], LINE_COMMENT + body, FEED);
    }
  }

  lemma LinesTold(c: CharClass, a: seq<Unit>) returns (body: seq<Unit>)
    requires c.Valid() && !SkipsLine(c, a)
    ensures LF !in body
    ensures ScriptScan(c, a + (LINE_COMMENT + []) + FEED) != ScriptScan(c, a + (LINE_COMMENT + body) + FEED)
  {
    var e := Ending(c, a, START);
    EndingShape(c, a, START);
    StopIsLong();
    body := LinesDiffer(c, STOP, e.rest, e.state);
    LineCommentJoinsFree(a, LINE_COMMENT + [], FEED);
    LineCommentJoinsFree(a, LINE_COMMENT + body, FEED);
    ScanOf(c, a, LINE_COMMENT + [], FEED);
    ScanOf(c, a, LINE_COMMENT + body, FEED);
    DifferBehind(e.out, Canon(c, STOP, e.rest + (LINE_COMMENT + [] + FEED), e.state),
                 Canon(c, STOP, e.rest + (LINE_COMMENT + body + FEED), e.state));
  }

  /** Directly behind a block comment another one is hashed. */
  lemma BehindCommentHashed(c: CharClass)
    requires c.Valid()
    ensures var comment: seq<Unit> := [SLASH, STAR, 'x' as int, STAR, SLASH];
            ScriptScan(c, EMPTY_BLOCK + comment) == Scan(comment, Outside, false, true)
  {
    assert [SLASH] + [STAR, 'x' as int, STAR] + [SLASH] == [SLASH, STAR, 'x' as int, STAR, SLASH];
    StopIsLong();
    BlocksAre();
    BehindBlock(c, STOP, EMPTY_BLOCK, [STAR, 'x' as int, STAR], START);
  }

  lemma BehindBlock(c: CharClass, stop: seq<Unit>, rest: seq<Unit>, t: seq<Unit>, s: State)
    requires LongStop(stop) && c.Valid() && WholeBlock(rest) && QuoteStep(s.quote, s.escaped, SLASH).Outside?
    requires Simple(c, t + [SLASH]) && forall k | 0 <= k < |t| :: c.graph(t[k])
    ensures var comment := [SLASH] + t + [SLASH];
            Canon(c, stop, rest + comment, s) == Scan(comment, Outside, false, true)
  {
    var comment := [SLASH] + t + [SLASH];
    assert comment[1..] == t + [SLASH];
    PastRest(c, stop, rest, comment, s);
    PastSimple(c, stop, comment, s);
    AllPrintable(c, t + [SLASH]);
    WhiteAtEnd(c, t, SLASH, false);
    assert [SLASH] + (t + [SLASH]) == comment;
  }

  lemma {:induction false} AllPrintable(c: CharClass, t: seq<Unit>)
    requires forall k | 0 <= k < |t| :: c.graph(t[k])
    ensures Squeeze(c, t, false) == t
  {
    if t != [] {
      AllPrintable(c, t[1..]);
      SqueezePrintable(c, t[0], t[1..], false);
      assert t == [t[0]] + t[1..];
    }
  }
}
