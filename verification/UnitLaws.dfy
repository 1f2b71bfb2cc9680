/**
 What the scanner does with one unit at which no comment opens: what it hashes, and whether
 it is in quotes behind it.
 */
module UnitLaws {
  import opened Options
  import opened Text
  import opened Scanner
  import opened ScannerLaws
  import opened Verbatim
  import opened Signature

  /** Step by step: a unit at which the scanner skips nothing. */
  lemma OneUnit(c: CharClass, stop: seq<Unit>, u: Unit, y: seq<Unit>, s: State)
    requires [u] + y != stop && !Opens([u] + y)
    ensures var q := QuoteStep(s.quote, s.escaped, u);
            Canon(c, stop, [u] + y, s) == Prepend(Emit(c, u, s.white), Canon(c, stop, y, Next(c, s, q, u)))
  {
    var t := [u] + y;
    assert t[1..] == y;
    CanonUnfold(c, stop, t, s, QuoteStep(s.quote, s.escaped, u), 0);
  }

  lemma OpensNothing(u: Unit, y: seq<Unit>)
    requires u != SLASH
    ensures !Opens([u] + y)
  {
    assert ([u] + y)[0] == u;
  }

  /**
   A quote mark that no backslash precedes: outside quotes it opens its own kind, a double
   quote ends quotes of either kind, and an apostrophe those in apostrophes only.
   */
  lemma QuoteMark(c: CharClass, stop: seq<Unit>, u: Unit, y: seq<Unit>, s: State)
    requires c.Valid() && (u == DOUBLE_QUOTE || u == APOSTROPHE) && [u] + y != stop && !s.escaped
    ensures s.quote.Outside? && u == DOUBLE_QUOTE ==>
              Canon(c, stop, [u] + y, s) == Prepend([u], Canon(c, stop, y, State(false, InDouble, false)))
    ensures s.quote.Outside? && u == APOSTROPHE ==>
              Canon(c, stop, [u] + y, s) == Prepend([u], Canon(c, stop, y, State(false, InSingle, false)))
    ensures s.quote.InDouble? && u == APOSTROPHE ==>
              Canon(c, stop, [u] + y, s) == Prepend([u], Canon(c, stop, y, State(false, InDouble, false)))
    ensures s.quote.InSingle? || (s.quote.InDouble? && u == DOUBLE_QUOTE) ==>
              Canon(c, stop, [u] + y, s) == Prepend([u], Canon(c, stop, y, State(false, Outside, false)))
  {
    OpensNothing(u, y);
    OneUnit(c, stop, u, y, s);
  }

  /** A unit that is no quote mark: printable ones are hashed, whitespace as one space, others not. */
  lemma OtherUnit(c: CharClass, stop: seq<Unit>, u: Unit, y: seq<Unit>, s: State)
    requires c.Valid() && u != DOUBLE_QUOTE && u != APOSTROPHE && [u] + y != stop && !Opens([u] + y)
    ensures var q := if s.escaped then Outside else s.quote;
            && (c.graph(u) ==>
                  Canon(c, stop, [u] + y, s) == Prepend([u], Canon(c, stop, y, State(u == BACKSLASH, q, false))))
            && (c.space(u) && s.white ==> Canon(c, stop, [u] + y, s) == Canon(c, stop, y, State(false, q, true)))
            && (c.space(u) && !s.white ==>
                  Canon(c, stop, [u] + y, s) == Prepend([SPACE], Canon(c, stop, y, State(false, q, true))))
            && (!c.graph(u) && !c.space(u) ==> Canon(c, stop, [u] + y, s) == Canon(c, stop, y, State(false, q, s.white)))
  {
    var q := if s.escaped then Outside else s.quote;
    assert !(c.graph(u) && c.space(u));
    OneUnit(c, stop, u, y, s);
    PrependNothing(Canon(c, stop, y, State(false, q, true)));
    PrependNothing(Canon(c, stop, y, State(false, q, s.white)));
  }

  /**
   Behind a backslash the scan goes on outside quotes, whatever the quotes were and whatever
   the unit is, a quote mark included.
   */
  lemma BehindBackslash(c: CharClass, stop: seq<Unit>, u: Unit, y: seq<Unit>, s: State)
    requires c.Valid() && [BACKSLASH, u] + y != stop && [u] + y != stop && !Opens([u] + y)
    ensures var t := [BACKSLASH, u] + y;
            && (c.graph(u) ==>
                  Canon(c, stop, t, s) == Prepend([BACKSLASH, u], Canon(c, stop, y, State(u == BACKSLASH, Outside, false))))
            && (c.space(u) ==>
                  Canon(c, stop, t, s) == Prepend([BACKSLASH, SPACE], Canon(c, stop, y, State(false, Outside, true))))
            && (!c.graph(u) && !c.space(u) ==>
                  Canon(c, stop, t, s) == Prepend([BACKSLASH], Canon(c, stop, y, State(false, Outside, false))))
  {
    var rest := [u] + y;
    var behind := State(true, if s.escaped then Outside else s.quote, false);
    assert [BACKSLASH] + rest == [BACKSLASH, u] + y;
    assert !(c.graph(u) && c.space(u));
    OpensNothing(BACKSLASH, rest);
    OtherUnit(c, stop, BACKSLASH, rest, s);
    EscapedUnit(c, stop, u, y, behind);
    assert [BACKSLASH] + [u] == [BACKSLASH, u] && [BACKSLASH] + [SPACE] == [BACKSLASH, SPACE];
    if c.graph(u) {
      PrependTwice([BACKSLASH], [u], Canon(c, stop, y, State(u == BACKSLASH, Outside, false)));
    } else if c.space(u) {
      PrependTwice([BACKSLASH], [SPACE], Canon(c, stop, y, State(false, Outside, true)));
    }
  }

  lemma EscapedUnit(c: CharClass, stop: seq<Unit>, u: Unit, y: seq<Unit>, s: State)
    requires c.Valid() && s.escaped && !s.white && [u] + y != stop && !Opens([u] + y)
    ensures c.graph(u) ==>
              Canon(c, stop, [u] + y, s) == Prepend([u], Canon(c, stop, y, State(u == BACKSLASH, Outside, false)))
    ensures c.space(u) ==>
              Canon(c, stop, [u] + y, s) == Prepend([SPACE], Canon(c, stop, y, State(false, Outside, true)))
    ensures !c.graph(u) && !c.space(u) ==>
              Canon(c, stop, [u] + y, s) == Canon(c, stop, y, State(false, Outside, false))
  {
    assert !(c.graph(u) && c.space(u));
    OneUnit(c, stop, u, y, s);
    PrependNothing(Canon(c, stop, y, State(false, Outside, false)));
  }

  /** A script starts outside quotes, and whitespace at its start is hashed as one space. */
  lemma LeadingWhitespace(c: CharClass, run: seq<Unit>, b: seq<Unit>)
    requires c.Valid() && run != [] && White(c, run) && JoinsFree(STOP, run, b)
    ensures ScriptScan(c, run + b) == Prepend([SPACE], Canon(c, STOP, b, State(false, Outside, true)))
  {
    CanonWhiteRun(c, STOP, run, b, START);
  }

  // ------------------------------------------------------- a literal with an escaped quote

  const A: Unit := 'a' as int
  const B: Unit := 'b' as int

  /** The literal "a\"b", with its quotes: the scanner takes the escaped quote for the last. */
  const ESCAPED_LITERAL: seq<Unit> := [DOUBLE_QUOTE, A, BACKSLASH, DOUBLE_QUOTE, B, DOUBLE_QUOTE]

  /** The end of the literal, behind the escaped quote. */
  lemma OpenAtEnd(c: CharClass, stop: seq<Unit>)
    requires c.Valid() && |stop| > |ESCAPED_LITERAL|
    ensures Canon(c, stop, [B, DOUBLE_QUOTE], State(false, Outside, false)) == Scan([B, DOUBLE_QUOTE], InDouble, false, true)
  {
    var end: seq<Unit> := [DOUBLE_QUOTE];
    QuoteMark(c, stop, DOUBLE_QUOTE, [], State(false, Outside, false));
    assert [DOUBLE_QUOTE] + [] == end;
    assert Canon(c, stop, end, State(false, Outside, false)) == Scan(end, InDouble, false, true);
    OpensNothing(B, end);
    OtherUnit(c, stop, B, end, State(false, Outside, false));
    assert [B] + end == [B, DOUBLE_QUOTE];
  }

  /** From the backslash on. */
  lemma EscapeToEnd(c: CharClass, stop: seq<Unit>, t: seq<Unit>)
    requires c.Valid() && |stop| > |ESCAPED_LITERAL| && t == [BACKSLASH, DOUBLE_QUOTE, B, DOUBLE_QUOTE]
    ensures Canon(c, stop, t, State(false, InDouble, false)) == Scan(t, InDouble, false, true)
  {
    var end: seq<Unit> := [B, DOUBLE_QUOTE];
    var escape: seq<Unit> := [BACKSLASH, DOUBLE_QUOTE];
    OpenAtEnd(c, stop);
    OpensNothing(DOUBLE_QUOTE, end);
    BehindBackslash(c, stop, DOUBLE_QUOTE, end, State(false, InDouble, false));
    assert t == escape + end;
  }

  lemma EscapedQuoteScan(c: CharClass, stop: seq<Unit>)
    requires c.Valid() && |stop| > |ESCAPED_LITERAL|
    ensures Canon(c, stop, ESCAPED_LITERAL, START) == Scan(ESCAPED_LITERAL, InDouble, false, true)
  {
    var t: seq<Unit> := [BACKSLASH, DOUBLE_QUOTE, B, DOUBLE_QUOTE];
    EscapeToEnd(c, stop, t);
    LetterInside(c, stop, t);
    QuoteMark(c, stop, DOUBLE_QUOTE, [A] + t, START);
    assert ESCAPED_LITERAL == [DOUBLE_QUOTE] + ([A] + t);
  }

  lemma LetterInside(c: CharClass, stop: seq<Unit>, t: seq<Unit>)
    requires c.Valid() && |stop| > |t| + 1
    requires Canon(c, stop, t, State(false, InDouble, false)) == Scan(t, InDouble, false, true)
    ensures Canon(c, stop, [A] + t, State(false, InDouble, false)) == Scan([A] + t, InDouble, false, true)
  {
    OpensNothing(A, t);
    OtherUnit(c, stop, A, t, State(false, InDouble, false));
  }

  /** So a script of that literal can be signed and loaded, and is not accepted. */
  lemma EscapedQuoteNotSignable(c: CharClass)
    requires c.Valid()
    ensures ScriptScan(c, ESCAPED_LITERAL) == Scan(ESCAPED_LITERAL, InDouble, false, true)
    ensures NUL !in ESCAPED_LITERAL && Find(ESCAPED_LITERAL, BEGIN).None? && !Signable(c, ESCAPED_LITERAL)
  {
    StopLength();
    EscapedQuoteScan(c, STOP);
    OpenQuotes(c, ESCAPED_LITERAL);
  }

  lemma StopLength()
    ensures |STOP| == 34
  {
    BeginChars();
  }

  /** A script whose scan ends in quotes, and not behind a backslash, is not signable. */
  lemma OpenQuotes(c: CharClass, script: seq<Unit>)
    requires !ScriptScan(c, script).quote.Outside? && script != [] && script[|script| - 1] != BACKSLASH
    ensures !Signable(c, script)
  {
  }
}
