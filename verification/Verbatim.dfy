/**
 What the scanner hashes verbatim, but for its whitespace: every text in which no comment
 opens, and nothing else. What that means for string literals.
 */
module Verbatim {
  import opened Options
  import opened Text
  import opened Scanner
  import opened ScannerLaws

  predicate Opens(t: seq<Unit>) {
    LINE_COMMENT <= t || BLOCK_COMMENT <= t
  }

  /** The quotes behind a text in which nothing is skipped. */
  function QuotesBehind(t: seq<Unit>, q: Quote, escaped: bool): Quote {
    if t == [] then q else QuotesBehind(t[1..], QuoteStep(q, escaped, t[0]), t[0] == BACKSLASH)
  }

  /** Nowhere outside quotes does a comment open. */
  predicate NoOpener(t: seq<Unit>, q: Quote, escaped: bool) {
    t == []
    || (var q1 := QuoteStep(q, escaped, t[0]);
        !(q1.Outside? && Opens(t)) && NoOpener(t[1..], q1, t[0] == BACKSLASH))
  }

  // ------------------------------------------------------- counting printable units

  function Count(c: CharClass, t: seq<Unit>): nat {
    if t == [] then 0 else (if c.graph(t[0]) then 1 else 0) + Count(c, t[1..])
  }

  lemma {:induction false} CountFrom(c: CharClass, t: seq<Unit>, n: nat)
    requires n <= |t|
    ensures Count(c, t[n..]) <= Count(c, t)
  {
    if n == 0 {
      assert t[0..] == t;
    } else {
      CountFrom(c, t[1..], n - 1);
      assert t[1..][n - 1..] == t[n..];
    }
  }

  lemma CountEmit(c: CharClass, u: Unit, white: bool, rest: seq<Unit>)
    requires c.Valid()
    ensures Count(c, Emit(c, u, white) + rest) == (if c.graph(u) then 1 else 0) + Count(c, rest)
  {
    assert !(c.graph(SPACE) && c.space(SPACE));
    var e := Emit(c, u, white);
    if e == [] {
      assert e + rest == rest;
    } else {
      assert (e + rest)[1..] == rest;
    }
  }

  lemma {:induction false} CountSqueeze(c: CharClass, t: seq<Unit>, white: bool)
    requires c.Valid()
    ensures Count(c, Squeeze(c, t, white)) == Count(c, t)
  {
    if t != [] {
      var next := WhitespaceAfter(c, t[0], white);
      CountSqueeze(c, t[1..], next);
      CountEmit(c, t[0], white, Squeeze(c, t[1..], next));
    }
  }

  /** The scanner adds no printable unit. */
  lemma {:induction false} CountCanon(c: CharClass, stop: seq<Unit>, t: seq<Unit>, s: State)
    requires c.Valid()
    ensures Count(c, Canon(c, stop, t, s).out) <= Count(c, t)
    decreases |t|
  {
    if t != [] && t != stop {
      var q := QuoteStep(s.quote, s.escaped, t[0]);
      match Jump(t, q) {
        case None =>
        case Some(n) =>
          CountJump(c, stop, t, s, q, n);
          CountFrom(c, t, n);
      }
    }
  }

  /** What is left behind a skip is counted with the unit behind it. */
  lemma {:induction false} CountJump(c: CharClass, stop: seq<Unit>, t: seq<Unit>, s: State, q: Quote, n: nat)
    requires c.Valid() && t != [] && t != stop
    requires q == QuoteStep(s.quote, s.escaped, t[0]) && Jump(t, q) == Some(n)
    ensures Count(c, Canon(c, stop, t, s).out) <= Count(c, t[n..])
    decreases |t|, 0
  {
    CanonUnfold(c, stop, t, s, q, n);
    var rest, next := After(t, n), Next(c, s, q, At(t, n));
    CountEmit(c, At(t, n), s.white, Canon(c, stop, rest, next).out);
    CountCanon(c, stop, rest, next);
    if n < |t| {
      assert t[n..][1..] == rest;
    }
  }

  // -------------------------------------------------------------------- the theorem

  /** A comment that opens takes a printable unit away. */
  lemma OpenerTakes(c: CharClass, stop: seq<Unit>, t: seq<Unit>, s: State)
    requires c.Valid() && t != [] && t != stop
    requires QuoteStep(s.quote, s.escaped, t[0]).Outside? && Opens(t)
    ensures var r := Canon(c, stop, t, s);
            !r.ok || Count(c, r.out) < Count(c, t)
  {
    assert t[0] == SLASH;
    match Jump(t, Outside) {
      case None =>
      case Some(n) =>
        OpenerLength(t, n);
        CountJump(c, stop, t, s, Outside, n);
        CountFrom(c, t[1..], n - 1);
        assert t[1..][n - 1..] == t[n..];
    }
  }

  lemma OpenerLength(t: seq<Unit>, n: nat)
    requires Opens(t) && Skip(t) == Some(n)
    ensures n >= 2
  {
    if LINE_COMMENT <= t {
      FindLeast(t, [LF]);
      assert t[0] == SLASH && t[1] == SLASH && t[n..][0] == LF;
    }
  }

  /** Where a comment opens, something of the text is not hashed. */
  lemma {:induction false} NotVerbatim(c: CharClass, stop: seq<Unit>, t: seq<Unit>, s: State)
    requires c.Valid() && NoStop(stop, t) && !NoOpener(t, s.quote, s.escaped)
    ensures var r := Canon(c, stop, t, s);
            !r.ok || r.out != Squeeze(c, t, s.white)
    decreases |t|
  {
    assert t[0..] == t;
    var q := QuoteStep(s.quote, s.escaped, t[0]);
    if q.Outside? && Opens(t) {
      OpenerTakes(c, stop, t, s);
      CountSqueeze(c, t, s.white);
    } else {
      var next := Next(c, s, q, t[0]);
      NoStopTail(stop, t, 1);
      NotVerbatim(c, stop, t[1..], next);
      CanonUnfold(c, stop, t, s, q, 0);
      SameFront(Emit(c, t[0], s.white), Canon(c, stop, t[1..], next).out, Squeeze(c, t[1..], next.white));
    }
  }

  /** Where none opens, everything is. */
  lemma {:induction false} IsVerbatim(c: CharClass, stop: seq<Unit>, t: seq<Unit>, s: State)
    requires NoStop(stop, t) && NoOpener(t, s.quote, s.escaped)
    ensures Canon(c, stop, t, s)
         == Scan(Squeeze(c, t, s.white), QuotesBehind(t, s.quote, s.escaped), WhiteBehind(c, t, s.white), true)
    decreases |t|
  {
    if t != [] {
      assert t[0..] == t;
      var q := QuoteStep(s.quote, s.escaped, t[0]);
      NoStopTail(stop, t, 1);
      IsVerbatim(c, stop, t[1..], Next(c, s, q, t[0]));
      CanonUnfold(c, stop, t, s, q, 0);
    }
  }

  /**
   A text is hashed as it is, with its whitespace squeezed, and with the quotes its own quote
   marks leave open, if and only if no comment opens in it.
   */
  lemma VerbatimIff(c: CharClass, stop: seq<Unit>, t: seq<Unit>, s: State)
    requires c.Valid() && NoStop(stop, t)
    ensures Canon(c, stop, t, s)
         == Scan(Squeeze(c, t, s.white), QuotesBehind(t, s.quote, s.escaped), WhiteBehind(c, t, s.white), true)
        <==> NoOpener(t, s.quote, s.escaped)
  {
    if NoOpener(t, s.quote, s.escaped) {
      IsVerbatim(c, stop, t, s);
    } else {
      NotVerbatim(c, stop, t, s);
    }
  }

  lemma SameFront(e: seq<Unit>, a: seq<Unit>, b: seq<Unit>)
    ensures e + a == e + b <==> a == b
  {
    assert (e + a)[|e|..] == a && (e + b)[|e|..] == b;
  }

  // --------------------------------------------------------------------- literals

  lemma {:induction false} QuotesAppend(t: seq<Unit>, y: seq<Unit>, q: Quote, escaped: bool)
    ensures QuotesBehind(t + y, q, escaped)
         == QuotesBehind(y, QuotesBehind(t, q, escaped), if t == [] then escaped else t[|t| - 1] == BACKSLASH)
  {
    if t == [] {
      assert t + y == y;
    } else {
      TailAppend(t, y);
      QuotesAppend(t[1..], y, QuoteStep(q, escaped, t[0]), t[0] == BACKSLASH);
    }
  }

  /** A double quote ends a literal in apostrophes, and then the closing apostrophe does not. */
  lemma {:induction false} QuotesMixed(body: seq<Unit>, q: Quote)
    requires BACKSLASH !in body && APOSTROPHE !in body
    requires q.InSingle? ==> DOUBLE_QUOTE in body
    ensures !QuotesBehind(body + [APOSTROPHE], q, false).Outside?
    decreases |body|
  {
    var t := body + [APOSTROPHE];
    if body == [] {
      assert t[1..] == [];
    } else {
      assert body[0] in body && t[1..] == body[1..] + [APOSTROPHE];
      assert q.InSingle? && body[0] != DOUBLE_QUOTE ==> DOUBLE_QUOTE in body[1..];
      QuotesMixed(body[1..], QuoteStep(q, false, body[0]));
    }
  }

  /**
   A string literal without backslashes is hashed verbatim, and is over at its closing quote,
   if and only if it is in double quotes or holds no double quote.
   */
  lemma LiteralExact(c: CharClass, stop: seq<Unit>, u: Unit, body: seq<Unit>, s: State)
    requires c.Valid() && !s.escaped && s.quote.Outside? && !Opened(u).Outside?
    requires u !in body && BACKSLASH !in body && stop != [] && NoStop(stop, [u] + body + [u])
    ensures var literal := [u] + body + [u];
            Canon(c, stop, literal, s) == Scan(Squeeze(c, literal, s.white), Outside, false, true)
            <==> (u == DOUBLE_QUOTE || DOUBLE_QUOTE !in body)
  {
    var literal := [u] + body + [u];
    assert literal == [u] + (body + [u]);
    if u == DOUBLE_QUOTE || DOUBLE_QUOTE !in body {
      LiteralKept(c, stop, u, body, s);
    } else {
      VerbatimIff(c, stop, literal, s);
      assert literal[1..] == body + [u];
      QuotesMixed(body, InSingle);
      if NoOpener(literal, s.quote, s.escaped) {
        assert QuotesBehind(literal, s.quote, s.escaped) == QuotesBehind(body + [u], InSingle, false);
      } else {
        NotVerbatim(c, stop, literal, s);
      }
    }
  }

  lemma LiteralKept(c: CharClass, stop: seq<Unit>, u: Unit, body: seq<Unit>, s: State)
    requires c.Valid() && !s.escaped && s.quote.Outside? && !Opened(u).Outside?
    requires u !in body && BACKSLASH !in body && NoStop(stop, [u] + body + [u])
    requires u == DOUBLE_QUOTE || DOUBLE_QUOTE !in body
    ensures var literal := [u] + body + [u];
            Canon(c, stop, literal, s) == Scan(Squeeze(c, literal, s.white), Outside, false, true)
  {
    var literal := [u] + body + [u];
    assert literal[0] == u && literal[1..] == body + [u];
    InsideQuotes(body, u, Opened(u));
    VerbatimIff(c, stop, literal, s);
    WhiteAtEnd(c, [u] + body, u, s.white);
  }

  lemma {:induction false} InsideQuotes(body: seq<Unit>, u: Unit, q: Quote)
    requires !q.Outside? && q == Opened(u) && u !in body && BACKSLASH !in body
    requires u == DOUBLE_QUOTE || DOUBLE_QUOTE !in body
    ensures NoOpener(body + [u], q, false) && QuotesBehind(body + [u], q, false) == Outside
    decreases |body|
  {
    var t := body + [u];
    if body == [] {
      assert t[1..] == [];
    } else {
      assert body[0] in body && t[1..] == body[1..] + [u];
      InsideQuotes(body[1..], u, q);
    }
  }

  lemma {:induction false} WhiteAtEnd(c: CharClass, t: seq<Unit>, u: Unit, white: bool)
    requires c.Valid() && c.graph(u)
    ensures !WhiteBehind(c, t + [u], white)
  {
    if t == [] {
      assert t + [u] == [u] && [u][1..] == [];
    } else {
      TailAppend(t, [u]);
      WhiteAtEnd(c, t[1..], u, WhitespaceAfter(c, t[0], white));
    }
  }

  /** Literals that are lost: behind '" the rest of the line can be a comment. */
  lemma MixedLiteralLost(c: CharClass, stop: seq<Unit>, body: seq<Unit>)
    requires c.Valid() && stop != [] && LF !in body
    requires JoinsFree(stop, [APOSTROPHE, DOUBLE_QUOTE], LINE_COMMENT + body + [LF])
    ensures Canon(c, stop, [APOSTROPHE, DOUBLE_QUOTE] + (LINE_COMMENT + body) + [LF], START)
         == Scan([APOSTROPHE, DOUBLE_QUOTE, SPACE], Outside, true, true)
  {
    var a: seq<Unit> := [APOSTROPHE, DOUBLE_QUOTE];
    var b: seq<Unit> := [LF];
    LeadMixed(c);
    LineCommentHashed(c, stop, a, body, b);
    assert b[1..] == [] && [SPACE] + [] == [SPACE];
    assert a + [SPACE] == [APOSTROPHE, DOUBLE_QUOTE, SPACE];
  }

  lemma LeadMixed(c: CharClass)
    requires c.Valid()
    ensures Lead(c, [APOSTROPHE, DOUBLE_QUOTE], SLASH, START)
         == Some(Arrival(State(false, Outside, false), [APOSTROPHE, DOUBLE_QUOTE]))
  {
    var a: seq<Unit> := [APOSTROPHE, DOUBLE_QUOTE];
    var b: seq<Unit> := [DOUBLE_QUOTE];
    assert a[1..] == b && b[1..] == [];
    assert [DOUBLE_QUOTE] + [] == b && [APOSTROPHE] + b == a;
    assert Emit(c, DOUBLE_QUOTE, false) == b && Emit(c, APOSTROPHE, false) == [APOSTROPHE];
    JumpPlain(a + [SLASH], InSingle);
    JumpPlain(b + [SLASH], Outside);
    assert Lead(c, b, SLASH, State(false, InSingle, false)) == Some(Arrival(State(false, Outside, false), [DOUBLE_QUOTE]));
  }
}
