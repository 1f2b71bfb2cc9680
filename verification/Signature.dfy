/**
 The signature block: what the signer appends to a script, how the loader cuts the
 signature out again, and when the loader hashes the data the signer hashed.
 */
module Signature {
  import opened Options
  import opened Text
  import opened Sequences
  import opened Scanner
  import opened ScannerLaws

  const CRLF: seq<Unit> := [CR, LF]
  const BEGIN_TEXT := "/* SIG # Begin signature block"
  const END_TEXT := "SIG # End signature block */"
  const BEGIN: seq<Unit> := Units(BEGIN_TEXT)
  const END: seq<Unit> := Units(END_TEXT)

  /** The stop string both programs hand to HashSomeStuff. */
  const STOP: seq<Unit> := CRLF + BEGIN + CRLF

  /** What signscript appends. */
  function Block(sig: seq<Unit>): (b: seq<Unit>)
    ensures |b| >= 64
  {
    BeginChars();
    EndChars();
    CRLF + (BEGIN + CRLF + (sig + END + CRLF))
  }

  /** The alphabet of section 4 of RFC 4648. */
  predicate Base64(u: Unit) {
    || 'A' as int <= u <= 'Z' as int
    || 'a' as int <= u <= 'z' as int
    || '0' as int <= u <= '9' as int
    || u == '+' as int || u == '/' as int || u == '=' as int
  }

  /** The text of a signature: base64 broken into lines. */
  predicate IsSignature(sig: seq<Unit>) {
    forall k | 0 <= k < |sig| :: Base64(sig[k]) || sig[k] == CR || sig[k] == LF
  }

  lemma BeginChars()
    ensures |BEGIN| == 30 && BEGIN[0] == SLASH && BEGIN[1] == STAR && BEGIN[2] == SPACE
    ensures BEGIN[29] == 'k' as int
    ensures forall k | 0 <= k < 30 ::
              && BEGIN[k] != CR && BEGIN[k] != LF && BEGIN[k] != BACKSLASH && BEGIN[k] != NUL
              && BEGIN[k] != DOUBLE_QUOTE && BEGIN[k] != APOSTROPHE
              && (k == 1 || BEGIN[k] != STAR) && (k == 0 || BEGIN[k] != SLASH)
  {
  }

  lemma EndChars()
    ensures |END| == 28
    ensures END[0] == 'S' as int && END[1] == 'I' as int && END[2] == 'G' as int && END[3] == SPACE
    ensures END[26] == STAR && END[27] == SLASH
    ensures forall k | 0 <= k < 28 ::
              && END[k] != BACKSLASH && END[k] != NUL && END[k] != DOUBLE_QUOTE && END[k] != APOSTROPHE
              && (k == 26 || END[k] != STAR)
  {
  }

  // --------------------------------------------------------- finding the signature

  /** The text between the first separator behind begin and end, or behind it to the end of the text. */
  function Between(text: seq<Unit>, begin: seq<Unit>, separator: seq<Unit>, end: seq<Unit>): Option<seq<Unit>> {
    match Find(text, begin)
    case None => None
    case Some(p) =>
      match Find(text[p..], separator)
      case None => None
      case Some(q) => Some(UpTo(text[p + q + |separator|..], end))
  }

  /** A text up to the first end, or all of it. */
  function UpTo(block: seq<Unit>, end: seq<Unit>): seq<Unit> {
    match Find(block, end)
    case None => block
    case Some(n) => block[..n]
  }

  /** The slice LoadFile decodes; None where it would go on with a null pointer. */
  function SignatureText(text: seq<Unit>): Option<seq<Unit>> {
    Between(text, BEGIN, CRLF, END)
  }

  /** Where the slice begins: behind the first separator that follows the first begin marker. */
  predicate BlockAt(text: seq<Unit>, begin: seq<Unit>, separator: seq<Unit>, p: nat, q: nat) {
    FirstAt(text, begin, p) && FirstAt(text[p..], separator, q)
  }

  /** What is cut out: up to the first end marker behind it, or to the end of the text if there is none. */
  lemma SliceIs(text: seq<Unit>, begin: seq<Unit>, separator: seq<Unit>, end: seq<Unit>, p: nat, q: nat)
    requires BlockAt(text, begin, separator, p, q)
    ensures p + q + |separator| <= |text|
    ensures var block, r := text[p + q + |separator|..], Between(text, begin, separator, end);
            && (Nowhere(block, end) ==> r == Some(block))
            && forall n: nat | FirstAt(block, end, n) :: r == Some(block[..n])
  {
    FindIs(text, begin, p);
    FindIs(text[p..], separator, q);
    var block := text[p + q + |separator|..];
    UpToEnd(block, end);
    BehindSeparator(text, begin, separator, end, p, q, block);
  }

  lemma BehindSeparator(text: seq<Unit>, begin: seq<Unit>, separator: seq<Unit>, end: seq<Unit>, p: nat, q: nat, block: seq<Unit>)
    requires Find(text, begin) == Some(p) && p <= |text| && Find(text[p..], separator) == Some(q)
    requires p + q + |separator| <= |text| && block == text[p + q + |separator|..]
    ensures Between(text, begin, separator, end) == Some(UpTo(block, end))
  {
  }

  lemma UpToEnd(block: seq<Unit>, end: seq<Unit>)
    ensures Nowhere(block, end) ==> UpTo(block, end) == block
    ensures forall n: nat | FirstAt(block, end, n) :: UpTo(block, end) == block[..n]
  {
    FindNowhere(block, end);
    forall n: nat | FirstAt(block, end, n)
      ensures UpTo(block, end) == block[..n]
    {
      FindIs(block, end, n);
    }
  }

  /** A block that begins at e and has no end marker. */
  ghost predicate Unended(text: seq<Unit>, begin: seq<Unit>, separator: seq<Unit>, end: seq<Unit>, e: nat) {
    && e <= |text| && Nowhere(text[e..], end)
    && exists p: nat, q: nat :: BlockAt(text, begin, separator, p, q) && e == p + q + |separator|
  }

  /** Without an end marker everything up to the end of the text is decoded. */
  lemma UnendedSlice(text: seq<Unit>, begin: seq<Unit>, separator: seq<Unit>, end: seq<Unit>)
    ensures forall e: nat | Unended(text, begin, separator, end, e) :: Between(text, begin, separator, end) == Some(text[e..])
  {
    forall e: nat | Unended(text, begin, separator, end, e)
      ensures Between(text, begin, separator, end) == Some(text[e..])
    {
      var p: nat, q: nat :| BlockAt(text, begin, separator, p, q) && e == p + q + |separator|;
      SliceIs(text, begin, separator, end, p, q);
    }
  }

  /** Nothing is cut out exactly where the loader would go on with a null pointer. */
  lemma NoSlice(text: seq<Unit>, begin: seq<Unit>, separator: seq<Unit>, end: seq<Unit>)
    ensures Between(text, begin, separator, end).None? <==>
            Nowhere(text, begin) || exists p: nat :: FirstAt(text, begin, p) && Nowhere(text[p..], separator)
  {
    FindNowhere(text, begin);
    if Find(text, begin).Some? {
      var p := Find(text, begin).value;
      FindNowhere(text[p..], separator);
      forall p': nat | FirstAt(text, begin, p')
        ensures p' == p
      {
        FindIs(text, begin, p');
      }
    }
  }

  /** An occurrence of s in a + b that starts in a and does not fit there runs into b. */
  lemma NoneInside(a: seq<Unit>, b: seq<Unit>, s: seq<Unit>)
    requires Find(a, s).None? && s != []
    requires forall k | 0 <= k < |a| && |a| < k + |s| :: !(s <= (a + b)[k..])
    ensures forall k | 0 <= k < |a| :: !(s <= (a + b)[k..])
  {
    FindLeast(a, s);
    forall k | 0 <= k < |a|
      ensures !(s <= (a + b)[k..])
    {
      if k + |s| <= |a| {
        assert (a + b)[k..][..|s|] == a[k..][..|s|];
      }
    }
  }

  lemma BehindLineEnd(script: seq<Unit>, rest: seq<Unit>)
    ensures (script + (CRLF + rest))[|script| + 2..] == rest
  {
  }

  /** A marker without line ends cannot straddle the line end behind the script. */
  lemma FindMarker(script: seq<Unit>, marker: seq<Unit>, rest: seq<Unit>)
    requires Find(script, marker).None? && marker != [] && marker <= rest
    requires forall k | 0 <= k < |marker| :: marker[k] != CR && marker[k] != LF
    ensures Find(script + (CRLF + rest), marker) == Some(|script| + 2)
  {
    var text := script + (CRLF + rest);
    forall k | 0 <= k < |script| && |script| < k + |marker|
      ensures !(marker <= text[k..])
    {
      assert text[k..][|script| - k] == CR;
    }
    NoneInside(script, CRLF + rest, marker);
    assert text[|script|..][0] == CR && text[|script| + 1..][0] == LF;
    BehindLineEnd(script, rest);
    FindIs(text, marker, |script| + 2);
  }

  lemma FindLineEnd(rest: seq<Unit>)
    ensures Find(BEGIN + CRLF + rest, CRLF) == Some(|BEGIN|)
  {
    BeginChars();
    var t := BEGIN + CRLF + rest;
    forall k | 0 <= k < |BEGIN|
      ensures !(CRLF <= t[k..])
    {
      assert t[k..][0] == BEGIN[k];
    }
    assert t[|BEGIN|..] == CRLF + rest;
    FindIs(t, CRLF, |BEGIN|);
  }

  /** The end marker cannot start in the signature: it has a space in fourth place. */
  lemma FindEnd(sig: seq<Unit>, end: seq<Unit>)
    requires IsSignature(sig) && END <= end
    ensures Find(sig + end, END) == Some(|sig|)
  {
    EndChars();
    var t := sig + end;
    forall k | 0 <= k < |sig|
      ensures !(END <= t[k..])
    {
      if k + 3 < |sig| {
        assert t[k..][3] == sig[k + 3];
      } else {
        assert t[k..][|sig| - k] == END[0];
      }
    }
    assert t[|sig|..] == end;
    FindIs(t, END, |sig|);
  }

  lemma BlockAppend(sig: seq<Unit>, tail: seq<Unit>)
    ensures Block(sig) + tail == CRLF + (BEGIN + CRLF + (sig + (END + (CRLF + tail))))
  {
    var end := END + (CRLF + tail);
    assert sig + END + CRLF + tail == sig + end;
    var inner := sig + END + CRLF;
    assert BEGIN + CRLF + inner + tail == BEGIN + CRLF + (inner + tail);
  }

  /**
   Print and parse: from a script without the begin marker, the loader cuts out exactly
   the text the signer printed, whatever follows the block.
   */
  lemma SignatureRoundTrip(script: seq<Unit>, sig: seq<Unit>, tail: seq<Unit>)
    requires Find(script, BEGIN).None? && IsSignature(sig)
    ensures SignatureText(script + Block(sig) + tail) == Some(sig)
  {
    BlockAppend(sig, tail);
    var end := END + (CRLF + tail);
    var rest := BEGIN + CRLF + (sig + end);
    BeginChars();
    FindMarker(script, BEGIN, rest);
    FindLineEnd(sig + end);
    FindEnd(sig, end);
    BehindLineEnd(script, rest);
    BetweenIs(script + (CRLF + rest), |script| + 2, BEGIN, CRLF, END, sig, end);
    Regroup(script, Block(sig), tail, CRLF + rest);
  }

  /**
   The round trip holds exactly for the scripts without the begin marker: behind one of its
   own, a script makes the loader read something else than a long enough signature.
   */
  lemma RoundTripExact(script: seq<Unit>)
    ensures (forall sig | IsSignature(sig) :: SignatureText(script + Block(sig)) == Some(sig))
       <==> Find(script, BEGIN).None?
  {
    if Find(script, BEGIN).None? {
      forall sig | IsSignature(sig)
        ensures SignatureText(script + Block(sig)) == Some(sig)
      {
        SignatureRoundTrip(script, sig, []);
        assert script + Block(sig) + [] == script + Block(sig);
      }
    } else {
      var sig := seq(|script| + 4, _ => 'A' as int);
      assert IsSignature(sig);
      BlockAppend(sig, []);
      assert Block(sig) + [] == Block(sig);
      BeginChars();
      LongSignatureLost(script, BEGIN, CRLF, END, Block(sig), sig);
    }
  }

  /** With a marker in the script, the slice begins before the star of the marker behind it. */
  lemma LongSignatureLost(script: seq<Unit>, begin: seq<Unit>, separator: seq<Unit>, end: seq<Unit>,
                          b: seq<Unit>, sig: seq<Unit>)
    requires Find(script, begin).Some? && |separator| == 2 && separator <= b && |b| > 3 && b[3] == STAR
    requires STAR !in sig && |sig| == |script| + 4
    ensures Between(script + b, begin, separator, end) != Some(sig)
  {
    var text, p := script + b, Find(script, begin).value;
    FindAppend(script, b, begin);
    SliceAppend(script, b, p);
    SliceAppend(script[p..], b, |script| - p);
    assert script[p..][|script| - p..] + b == b;
    FoundNoLater(text[p..], separator, |script| - p);
    var q := Find(text[p..], separator).value;
    assert text[|script| + 3] == STAR;
    StarInSlice(text, p + q + 2, |script| + 3, sig);
    BetweenPrefix(text, begin, separator, end, p, q);
  }

  /** What is cut out begins behind the separator. */
  lemma BetweenPrefix(text: seq<Unit>, begin: seq<Unit>, separator: seq<Unit>, end: seq<Unit>, p: nat, q: nat)
    requires Find(text, begin) == Some(p) && p <= |text| && Find(text[p..], separator) == Some(q)
    requires p + q + |separator| <= |text|
    ensures Between(text, begin, separator, end).Some?
    ensures Between(text, begin, separator, end).value <= text[p + q + |separator|..]
  {
    BehindSeparator(text, begin, separator, end, p, q, text[p + q + |separator|..]);
  }

  lemma StarInSlice(text: seq<Unit>, e: nat, k: nat, sig: seq<Unit>)
    requires e <= k < |text| && text[k] == STAR && STAR !in sig && k - e < |sig|
    ensures !(sig <= text[e..])
  {
    assert text[e..][k - e] == STAR && sig[k - e] in sig;
  }

  /** Between, from the three places it looks for. */
  lemma CutOut(text: seq<Unit>, begin: seq<Unit>, separator: seq<Unit>, end: seq<Unit>,
               p: nat, rest: seq<Unit>, q: nat, block: seq<Unit>, n: nat)
    requires Find(text, begin) == Some(p) && p <= |text| && text[p..] == rest
    requires Find(rest, separator) == Some(q) && p + q + |separator| <= |text| && text[p + q + |separator|..] == block
    requires Find(block, end) == Some(n)
    ensures Between(text, begin, separator, end) == Some(block[..n])
  {
    BehindSeparator(text, begin, separator, end, p, q, block);
  }

  lemma Regroup(script: seq<Unit>, b: seq<Unit>, tail: seq<Unit>, rest: seq<Unit>)
    requires b + tail == rest
    ensures script + b + tail == script + rest
  {
    assert script + b + tail == script + (b + tail);
  }

  lemma BetweenIs(text: seq<Unit>, p: nat, begin: seq<Unit>, separator: seq<Unit>, end: seq<Unit>,
                  sig: seq<Unit>, e: seq<Unit>)
    requires Find(text, begin) == Some(p) && p <= |text| && text[p..] == begin + separator + (sig + e)
    requires Find(begin + separator + (sig + e), separator) == Some(|begin|)
    requires Find(sig + e, end) == Some(|sig|)
    ensures Between(text, begin, separator, end) == Some(sig)
  {
    var head, block := begin + separator, sig + e;
    BehindHead(text, p, head, block);
    CutOut(text, begin, separator, end, p, text[p..], |begin|, block, |sig|);
    SliceAppend(sig, e, |sig|);
    assert sig[..|sig|] == sig;
  }

  lemma BehindHead(text: seq<Unit>, p: nat, head: seq<Unit>, block: seq<Unit>)
    requires p <= |text| && text[p..] == head + block
    ensures p + |head| <= |text| && text[p + |head|..] == block
  {
    assert text[p + |head|..] == text[p..][|head|..];
  }

  /**
   A script that already holds a complete block keeps its signature: whatever is
   appended, a second block included, the loader cuts out the same text.
   */
  lemma FirstSignatureWins(script: seq<Unit>, p: nat, rest: seq<Unit>, q: nat, block: seq<Unit>, n: nat, y: seq<Unit>)
    requires Find(script, BEGIN) == Some(p) && p <= |script| && script[p..] == rest
    requires Find(rest, CRLF) == Some(q) && p + q + 2 <= |script| && script[p + q + 2..] == block
    requires Find(block, END) == Some(n)
    ensures SignatureText(script + y) == SignatureText(script) == Some(block[..n])
  {
    FirstBetween(script, BEGIN, CRLF, END, p, rest, q, block, n, y);
  }

  lemma FirstBetween(script: seq<Unit>, begin: seq<Unit>, separator: seq<Unit>, end: seq<Unit>,
                     p: nat, rest: seq<Unit>, q: nat, block: seq<Unit>, n: nat, y: seq<Unit>)
    requires Find(script, begin) == Some(p) && p <= |script| && script[p..] == rest
    requires Find(rest, separator) == Some(q) && p + q + |separator| <= |script|
    requires script[p + q + |separator|..] == block && Find(block, end) == Some(n)
    ensures Between(script + y, begin, separator, end) == Between(script, begin, separator, end) == Some(block[..n])
  {
    FindAppend(script, y, begin);
    FindAppend(rest, y, separator);
    FindAppend(block, y, end);
    SliceAppend(script, y, p);
    SliceAppend(script, y, p + q + |separator|);
    SliceAppend(block, y, n);
    CutOut(script, begin, separator, end, p, rest, q, block, n);
    CutOut(script + y, begin, separator, end, p, rest + y, q, block + y, n);
  }

  // ----------------------------------------------------------- scanning the block

  /** A text whose third unit from the end is a slash does not end in the stop string. */
  lemma NotStop(t: seq<Unit>)
    requires |t| >= 3 && t[|t| - 3] == SLASH
    ensures t != STOP
  {
    BeginChars();
    assert STOP[31] == BEGIN[29];
  }

  /** The block as the scanner sees it: a line end, one comment, a line end. */
  lemma BlockShape(sig: seq<Unit>)
    requires IsSignature(sig)
    ensures var comment := BEGIN + CRLF + sig + END;
            && Block(sig) == CRLF + (comment + CRLF)
            && |comment| >= 58 && comment[0] == SLASH && comment[|comment| - 1] == SLASH
            && BLOCK_COMMENT <= comment && Find(comment, BLOCK_END) == Some(|comment| - 2)
            && DOUBLE_QUOTE !in comment && APOSTROPHE !in comment && BACKSLASH !in comment && NUL !in comment
  {
    BeginChars();
    EndChars();
    var head, t := BEGIN + CRLF + sig, BEGIN + CRLF + sig + END;
    assert BEGIN + CRLF + (sig + END + CRLF) == t + CRLF;
    CommentUnits(sig);
    forall k | 0 <= k < |t| - 2
      ensures !(BLOCK_END <= t[k..])
    {
      assert t[k..][0] == t[k];
      assert t[1..][1] == t[2];
    }
    assert t[|t| - 2..] == BLOCK_END by {
      assert t[|t| - 2] == END[26] && t[|t| - 1] == END[27];
    }
    FindIs(t, BLOCK_END, |t| - 2);
    assert BLOCK_COMMENT <= t by { assert t[0] == BEGIN[0] && t[1] == BEGIN[1]; }
  }

  lemma CommentUnits(sig: seq<Unit>)
    requires IsSignature(sig)
    ensures var t := BEGIN + CRLF + sig + END;
            forall k | 0 <= k < |t| ::
              && t[k] != DOUBLE_QUOTE && t[k] != APOSTROPHE && t[k] != BACKSLASH && t[k] != NUL
              && (k == 1 || k == |t| - 2 || t[k] != STAR)
  {
    BeginChars();
    EndChars();
    var head, t := BEGIN + CRLF + sig, BEGIN + CRLF + sig + END;
    forall k | 0 <= k < |t|
      ensures t[k] != DOUBLE_QUOTE && t[k] != APOSTROPHE && t[k] != BACKSLASH && t[k] != NUL
      ensures k == 1 || k == |t| - 2 || t[k] != STAR
    {
      if k < 30 {
        assert t[k] == BEGIN[k];
      } else if k < 32 {
        assert t[k] == CRLF[k - 30];
      } else if k < |head| {
        assert t[k] == sig[k - 32];
      } else {
        assert t[k] == END[k - |head|];
      }
    }
  }

  lemma NoStopInBlock(t: seq<Unit>, sig: seq<Unit>)
    requires IsSignature(sig)
    ensures JoinsFree(STOP, t, Block(sig))
    ensures NoStop(STOP, Block(sig))
  {
    BlockShape(sig);
    BeginChars();
    var b := Block(sig);
    forall k | 0 <= k <= |t|
      ensures t[k..] + b != STOP
    {
      NotStop(t[k..] + b);
    }
    forall k | 0 <= k < |b|
      ensures b[k..] != STOP
    {
      if k + 3 <= |b| {
        NotStop(b[k..]);
      } else {
        assert |b[k..]| < |STOP|;
      }
    }
  }

  /** Outside quotes the block scans to nothing but the line end before it. */
  lemma CanonBlock(c: CharClass, sig: seq<Unit>, s: State)
    requires c.Valid() && IsSignature(sig) && Unescaped(s).Outside?
    ensures Canon(c, STOP, Block(sig), s) == Scan(if s.white then [] else [SPACE], Outside, true, true)
  {
    BlockShape(sig);
    var comment := BEGIN + CRLF + sig + END;
    var rest, s1 := comment + CRLF, State(false, Outside, true);
    BlockTail(sig, rest);
    WhiteIsPlain(c, CR);
    CanonWhiteRun(c, STOP, CRLF, rest, s);
    BlockCommentIs(comment, CRLF);
    CanonUnfold(c, STOP, rest, s1, Outside, |comment|);
    assert rest[|comment| + 1..] == [LF];
    LastLineFeed(c);
  }

  lemma BlockTail(sig: seq<Unit>, rest: seq<Unit>)
    requires IsSignature(sig) && Block(sig) == CRLF + rest
    ensures JoinsFree(STOP, CRLF, rest) && NoStop(STOP, rest)
    ensures rest != [] ==> rest != STOP
  {
    NoStopInBlock([], sig);
    var b := Block(sig);
    assert b[2..] == rest;
    NoStopTail(STOP, b, 2);
    forall k | 0 <= k <= 2
      ensures CRLF[k..] + rest != STOP
    {
      assert CRLF[k..] + rest == b[k..];
      assert STOP != [];
    }
    assert rest != [] ==> rest[0..] == rest;
  }

  lemma LastLineFeed(c: CharClass)
    requires c.Valid()
    ensures Canon(c, STOP, [LF], State(false, Outside, true)) == Scan([], Outside, true, true)
  {
    BeginChars();
    CanonWhite(c, STOP, [LF], State(false, Outside, true));
    var t: seq<Unit> := [LF];
    assert t[1..] == [];
  }

  lemma SqueezeLineEnd(c: CharClass, rest: seq<Unit>, white: bool)
    requires c.Valid()
    ensures Squeeze(c, CRLF + rest, white) == (if white then [] else [SPACE]) + Squeeze(c, rest, true)
  {
    var t := CRLF + rest;
    assert t[0] == CR && t[1..][0] == LF && t[1..][1..] == rest;
    WhiteIsPlain(c, CR);
    WhiteIsPlain(c, LF);
  }

  /** In quotes, the block is text: the scan stays in quotes and hashes all of it, squeezed. */
  lemma CanonBlockQuoted(c: CharClass, sig: seq<Unit>, s: State)
    requires c.Valid() && IsSignature(sig) && !Unescaped(s).Outside?
    ensures var r := Canon(c, STOP, Block(sig), s);
            r.ok && r.quote == s.quote && r.out == Squeeze(c, Block(sig), s.white) != []
  {
    BlockShape(sig);
    var comment := BEGIN + CRLF + sig + END;
    var rest, s1 := comment + CRLF, State(false, s.quote, true);
    BlockTail(sig, rest);
    CanonWhiteRun(c, STOP, CRLF, rest, s);
    InertBlock(sig, rest, s.quote);
    CanonInQuotes(c, STOP, rest, [], s1);
    assert rest + [] == rest;
    assert Squeeze(c, rest, true) != [];
    SqueezeLineEnd(c, rest, s.white);
  }

  /** The block ends no quotes. */
  lemma InertBlock(sig: seq<Unit>, rest: seq<Unit>, q: Quote)
    requires IsSignature(sig) && rest == BEGIN + CRLF + sig + END + CRLF
    requires forall k | 0 <= k < |rest| :: rest[k..] != STOP
    ensures (forall k | 0 <= k < |rest| :: Inert(q, rest[k])) && JoinsFree(STOP, rest, [])
  {
    BlockShape(sig);
    BeginChars();
    var comment := BEGIN + CRLF + sig + END;
    forall k | 0 <= k < |rest|
      ensures rest[k..] + [] != STOP && Inert(q, rest[k])
    {
      assert rest[k..] + [] == rest[k..];
      if k < |comment| {
        assert rest[k] == comment[k] && comment[k] in comment;
      } else {
        assert rest[k] == CRLF[k - |comment|];
      }
    }
  }

  // ------------------------------------------------- what both programs hash

  /** The scan of a whole script by either program. */
  function ScriptScan(c: CharClass, text: seq<Unit>): Scan {
    Canon(c, STOP, text, START)
  }

  /** The data either program passes to CryptHashData for a text, in order. */
  function HashedData(c: CharClass, text: seq<Unit>): seq<Unit> {
    var r := ScriptScan(c, text);
    Hashed(r.out, r.quote)
  }

  /**
   The condition on a script under which appending a signature block is invisible to the
   hash. The scan must not end in quotes, unless a backslash is about to end them; and if
   the canonical form does not end in a space, the space of the block's line end must not
   complete a buffer, for a full buffer is flushed before the trailing space is trimmed.
   */
  predicate Signable(c: CharClass, script: seq<Unit>) {
    var r := ScriptScan(c, script);
    && (r.quote.Outside? || Escaped(script, START))
    && (r.white || |r.out| % BUFFER != BUFFER - 1)
  }

  /** The scan of a signed script, from the scan of the script. */
  lemma SignedScan(c: CharClass, script: seq<Unit>, sig: seq<Unit>)
    requires c.Valid() && IsSignature(sig) && ScriptScan(c, script).ok && NoStop(STOP, script)
    ensures var r, r' := ScriptScan(c, script), ScriptScan(c, script + Block(sig));
            && r'.ok
            && (r.quote.Outside? || Escaped(script, START) ==>
                r' == Scan(r.out + (if r.white then [] else [SPACE]), Outside, true, true))
            && (!r.quote.Outside? && !Escaped(script, START) ==> !r'.quote.Outside? && |r'.out| > |r.out|)
  {
    var r := ScriptScan(c, script);
    var s := State(Escaped(script, START), r.quote, r.white);
    NoStopInBlock(script, sig);
    CanonAppend(c, STOP, script, Block(sig), START);
    if Unescaped(s).Outside? {
      CanonBlock(c, sig, s);
    } else {
      CanonBlockQuoted(c, sig, s);
    }
  }

  /** Signing leaves the hashed data unchanged exactly for the signable scripts. */
  lemma SigningPreservesHash(c: CharClass, script: seq<Unit>, sig: seq<Unit>)
    requires c.Valid() && IsSignature(sig) && ScriptScan(c, script).ok && NoStop(STOP, script)
    ensures ScriptScan(c, script + Block(sig)).ok
    ensures HashedData(c, script + Block(sig)) == HashedData(c, script) <==> Signable(c, script)
  {
    var r, r' := ScriptScan(c, script), ScriptScan(c, script + Block(sig));
    SignedScan(c, script, sig);
    HashedIs(r.out, r.quote);
    HashedIs(r'.out, r'.quote);
    WhiteIsLastSpace(c, STOP, script, START);
    if r.white && !r.quote.Outside? && Escaped(script, START) {
      BackslashNotWhite(c, STOP, script, START);
    }
    SameHash(r, r', Escaped(script, START));
  }

  lemma SameHash(r: Scan, r': Scan, escaped: bool)
    requires r.white <==> r.out != [] && r.out[|r.out| - 1] == SPACE
    requires r.white && escaped ==> r.quote.Outside?
    requires r.quote.Outside? || escaped ==> r'.quote.Outside? && r'.out == r.out + (if r.white then [] else [SPACE])
    requires !r.quote.Outside? && !escaped ==> !r'.quote.Outside? && |r'.out| > |r.out|
    ensures (if |r'.out| % BUFFER != 0 then Trim(r'.out, r'.quote) else r'.out)
         == (if |r.out| % BUFFER != 0 then Trim(r.out, r.quote) else r.out)
        <==> ((r.quote.Outside? || escaped) && (r.white || |r.out| % BUFFER != BUFFER - 1))
  {
    if r.quote.Outside? || escaped {
      if r.white {
        assert r'.out == r.out;
      } else {
        assert Trim(r'.out, Outside) == r.out;
        assert |r'.out| == |r.out| + 1;
        assert |r'.out| % BUFFER == 0 <==> |r.out| % BUFFER == BUFFER - 1;
      }
    }
  }

  /** The stop string contains the begin marker, so a script without the marker does not end in it. */
  lemma NoBeginNoStop(script: seq<Unit>)
    requires Find(script, BEGIN).None?
    ensures NoStop(STOP, script)
  {
    FindLeast(script, BEGIN);
    assert STOP[2..] == BEGIN + CRLF;
    forall k | 0 <= k < |script|
      ensures script[k..] != STOP
    {
      if k + 2 <= |script| {
        assert script[k..][2..] == script[k + 2..];
      }
    }
  }

  /**
   The two programs together. For a signature scheme that verifies a signature exactly on
   the data it was made for, the loader accepts what the signer produced if and only if
   the script is signable.
   */
  lemma LoaderAcceptsSignedScript(c: CharClass, script: seq<Unit>,
                                  sign: seq<Unit> -> seq<Unit>, verifies: (seq<Unit>, seq<Unit>) -> bool)
    requires c.Valid() && ScriptScan(c, script).ok && Find(script, BEGIN).None?
    requires forall data :: IsSignature(sign(data))
    requires forall data, data' :: verifies(data, sign(data')) <==> data == data'
    ensures var signed := script + Block(sign(HashedData(c, script)));
            && SignatureText(signed).Some?
            && (verifies(HashedData(c, signed), SignatureText(signed).value) <==> Signable(c, script))
  {
    var sig := sign(HashedData(c, script));
    NoBeginNoStop(script);
    SignatureRoundTrip(script, sig, []);
    assert script + Block(sig) + [] == script + Block(sig);
    SigningPreservesHash(c, script, sig);
  }

  /** A printable unit that is no quote, backslash or slash. */
  predicate Ordinary(c: CharClass, u: Unit) {
    c.graph(u) && Plain(u) && u != BACKSLASH
  }

  /** Text of printable units, with no quotes, backslashes or comments, is its own canonical form. */
  lemma {:induction false} CanonPrintable(c: CharClass, stop: seq<Unit>, t: seq<Unit>, s: State)
    requires c.Valid() && NoStop(stop, t) && s.quote.Outside?
    requires forall k | 0 <= k < |t| :: Ordinary(c, t[k])
    ensures Canon(c, stop, t, s) == Scan(t, Outside, t == [] && s.white, true)
    decreases |t|
  {
    if t != [] {
      assert t[0..] == t;
      NoStopTail(stop, t, 1);
      PrintableStep(c, stop, t, s);
      CanonPrintable(c, stop, t[1..], State(false, Outside, false));
      assert [t[0]] + t[1..] == t;
    }
  }

  lemma PrintableStep(c: CharClass, stop: seq<Unit>, t: seq<Unit>, s: State)
    requires t != [] && t != stop && s.quote.Outside?
    requires Ordinary(c, t[0])
    ensures Canon(c, stop, t, s) == Prepend([t[0]], Canon(c, stop, t[1..], State(false, Outside, false)))
  {
    JumpPlain(t, Outside);
    CanonUnfold(c, stop, t, s, Outside, 0);
  }

  /** A script that fails the condition: 1023 letters. Signed, it hashes one space more. */
  lemma FullBufferNotSignable(c: CharClass, script: seq<Unit>, sig: seq<Unit>)
    requires c.Valid() && IsSignature(sig)
    requires |script| == 1023 && forall k | 0 <= k < |script| :: script[k] == 'x' as int
    ensures ScriptScan(c, script).ok && !Signable(c, script)
    ensures HashedData(c, script) == script && HashedData(c, script + Block(sig)) == script + [SPACE]
  {
    LettersScan(c, script);
    SignedScan(c, script, sig);
    assert ScriptScan(c, script + Block(sig)) == Scan(script + [SPACE], Outside, true, true);
    OneSpaceMore(script);
  }

  lemma LettersScan(c: CharClass, script: seq<Unit>)
    requires c.Valid() && script != [] && forall k | 0 <= k < |script| :: script[k] == 'x' as int
    ensures NoStop(STOP, script) && ScriptScan(c, script) == Scan(script, Outside, false, true)
  {
    LettersNoStop(script);
    CanonPrintable(c, STOP, script, START);
  }

  lemma LettersNoStop(script: seq<Unit>)
    requires forall k | 0 <= k < |script| :: script[k] == 'x' as int
    ensures NoStop(STOP, script)
  {
    forall k | 0 <= k < |script|
      ensures script[k..] != STOP
    {
      assert script[k..][0] == script[k];
      assert STOP[0] == CR;
    }
  }

  lemma OneSpaceMore(out: seq<Unit>)
    requires |out| == BUFFER - 1 && out[|out| - 1] != SPACE
    ensures Hashed(out, Outside) == out && Hashed(out + [SPACE], Outside) == out + [SPACE]
    ensures |out| % BUFFER == BUFFER - 1
  {
    HashedIs(out, Outside);
    HashedIs(out + [SPACE], Outside);
  }

  /** A script that fails the other half of it: one quote. Signed, it hashes the block as well. */
  lemma OpenQuoteNotSignable(c: CharClass, sig: seq<Unit>)
    requires c.Valid() && IsSignature(sig)
    ensures ScriptScan(c, [DOUBLE_QUOTE]).ok && !Signable(c, [DOUBLE_QUOTE])
    ensures HashedData(c, [DOUBLE_QUOTE]) == [DOUBLE_QUOTE]
    ensures HashedData(c, [DOUBLE_QUOTE] + Block(sig)) == [DOUBLE_QUOTE] + Squeeze(c, Block(sig), false)
  {
    var script: seq<Unit> := [DOUBLE_QUOTE];
    var inside := State(false, InDouble, false);
    OneQuote(c);
    NoStopInBlock(script, sig);
    CanonAppend(c, STOP, script, Block(sig), START);
    CanonBlockQuoted(c, sig, inside);
    HashedIs(script, InDouble);
    HashedIs(script + Squeeze(c, Block(sig), false), InDouble);
  }

  lemma OneQuote(c: CharClass)
    requires c.Valid()
    ensures NoStop(STOP, [DOUBLE_QUOTE])
    ensures ScriptScan(c, [DOUBLE_QUOTE]) == Scan([DOUBLE_QUOTE], InDouble, false, true)
  {
    var script: seq<Unit> := [DOUBLE_QUOTE];
    assert STOP[0] == CR && script[0..] == script && script[1..] == [];
    CanonUnfold(c, STOP, script, START, InDouble, 0);
  }

  // ------------------------------------------------------------------ the programs

  /** signscript's _tmain, from the script text to the text of the signed file. */
  method SignScript(c: CharClass, script: seq<Unit>, sign: seq<Unit> -> seq<Unit>) returns (signed: seq<Unit>)
    requires c.Valid() && NUL !in script && ScriptScan(c, script).ok
    ensures signed == script + Block(sign(HashedData(c, script)))
  {
    var hHash := new HashObject();
    HashSomeStuff(c, script, STOP, hHash);
    assert hHash.calls == Feed(ScriptScan(c, script).out, ScriptScan(c, script).quote);
    signed := script + Block(sign(Concat(hHash.calls)));
  }

  /** The pointer walk of LoadFile: signatureBlock moves to the text, then its length is measured. */
  method Locate(text: seq<Unit>, begin: seq<Unit>, separator: seq<Unit>, end: seq<Unit>) returns (r: Option<seq<Unit>>)
    ensures r == Between(text, begin, separator, end)
  {
    var signatureBlock := Find(text, begin);
    if signatureBlock.None? {
      return None;
    }
    var lineEnd := Find(text[signatureBlock.value..], separator);
    if lineEnd.None? {
      return None;
    }
    var block := text[signatureBlock.value + lineEnd.value + |separator|..];
    var signatureTextLength := |block|;
    var signatureEnd := Find(block, end);
    if signatureEnd.Some? {
      signatureTextLength := signatureEnd.value;
    }
    assert block[..|block|] == block;
    r := Some(block[..signatureTextLength]);
  }

  /** The signature check of LoadFile; None where it has no signature block to read. */
  method CheckSignature(c: CharClass, text: seq<Unit>, verifies: (seq<Unit>, seq<Unit>) -> bool)
    returns (accepted: Option<bool>)
    requires c.Valid() && NUL !in text && ScriptScan(c, text).ok
    ensures accepted == match SignatureText(text)
                        case None => None
                        case Some(sig) => Some(verifies(HashedData(c, text), sig))
    ensures forall e: nat | Unended(text, BEGIN, CRLF, END, e) :: accepted == Some(verifies(HashedData(c, text), text[e..]))
  {
    UnendedSlice(text, BEGIN, CRLF, END);
    var signature := Locate(text, BEGIN, CRLF, END);
    if signature.None? {
      return None;
    }
    var hHash := new HashObject();
    HashSomeStuff(c, text, STOP, hHash);
    assert hHash.calls == Feed(ScriptScan(c, text).out, ScriptScan(c, text).quote);
    accepted := Some(verifies(Concat(hHash.calls), signature.value));
  }

  /** Sign a script and load the result. */
  method SignAndLoad(c: CharClass, script: seq<Unit>,
                     sign: seq<Unit> -> seq<Unit>, verifies: (seq<Unit>, seq<Unit>) -> bool)
    returns (accepted: Option<bool>)
    requires c.Valid() && NUL !in script && ScriptScan(c, script).ok && Find(script, BEGIN).None?
    requires forall data :: IsSignature(sign(data))
    requires forall data, data' :: verifies(data, sign(data')) <==> data == data'
    ensures accepted == Some(Signable(c, script))
  {
    ghost var sig := sign(HashedData(c, script));
    NoBeginNoStop(script);
    LoaderAcceptsSignedScript(c, script, sign, verifies);
    SigningPreservesHash(c, script, sig);
    BlockShape(sig);
    var signed := SignScript(c, script, sign);
    accepted := CheckSignature(c, signed, verifies);
  }

  // ------------------------------------------------- comments, with the real stop string

  /** No text with a comment terminator in it is the stop string. */
  lemma NoTerminatorInStop(x: seq<Unit>, t: seq<Unit>, y: seq<Unit>)
    requires Find(t, BLOCK_END).Some?
    ensures x + t + y != STOP
  {
    BeginChars();
    FindLeast(t, BLOCK_END);
    var k := Find(t, BLOCK_END).value;
    var whole := x + t + y;
    assert t[k..][0] == STAR && t[k..][1] == SLASH;
    assert |x| + k + 1 < |whole| && whole[|x| + k] == STAR && whole[|x| + k + 1] == SLASH;
    assert STOP[3] == STAR && STOP[4] == SPACE;
  }

  /**
   The text of a block comment never reaches the hash, where the scanner comes to its opener
   outside quotes: any other comment in its place gives the same data.
   */
  lemma BlockCommentNotHashed(c: CharClass, a: seq<Unit>, comment: seq<Unit>, comment': seq<Unit>, b: seq<Unit>)
    requires AtCommentOpener(c, a)
    requires BLOCK_COMMENT <= comment && Find(comment, BLOCK_END) == Some(|comment| - 2)
    requires BLOCK_COMMENT <= comment' && Find(comment', BLOCK_END) == Some(|comment'| - 2)
    ensures ScriptScan(c, a + comment + b) == ScriptScan(c, a + comment' + b)
  {
    BlockCommentIs(comment, b);
    BlockCommentIs(comment', b);
    CommentJoinsFree(a, comment, b);
    CommentJoinsFree(a, comment', b);
    CommentIrrelevant(c, STOP, a, comment, comment', b);
  }

  lemma CommentJoinsFree(a: seq<Unit>, comment: seq<Unit>, b: seq<Unit>)
    requires Find(comment, BLOCK_END).Some?
    ensures JoinsFree(STOP, a, comment + b)
  {
    forall k | 0 <= k <= |a|
      ensures a[k..] + (comment + b) != STOP
    {
      NoTerminatorInStop(a[k..], comment, b);
      assert a[k..] + (comment + b) == a[k..] + comment + b;
    }
  }

  /** No text with a line comment opener in it is the stop string, which has only one slash. */
  lemma NoLineCommentInStop(x: seq<Unit>, t: seq<Unit>, y: seq<Unit>)
    requires LINE_COMMENT <= t
    ensures x + t + y != STOP
  {
    BeginChars();
    var whole := x + t + y;
    assert t[0] == SLASH && t[1] == SLASH;
    assert whole[|x|] == SLASH && whole[|x| + 1] == SLASH;
    assert forall k | 0 <= k < 34 && k != 2 :: STOP[k] != SLASH;
  }

  /** Nor, there, does the text of a line comment. */
  lemma LineCommentNotHashed(c: CharClass, a: seq<Unit>, body: seq<Unit>, body': seq<Unit>, b: seq<Unit>)
    requires AtCommentOpener(c, a) && LF !in body && LF !in body' && b != [] && b[0] == LF
    ensures ScriptScan(c, a + (LINE_COMMENT + body) + b) == ScriptScan(c, a + (LINE_COMMENT + body') + b)
  {
    LineCommentIs(body, b);
    LineCommentIs(body', b);
    LineCommentJoinsFree(a, LINE_COMMENT + body, b);
    LineCommentJoinsFree(a, LINE_COMMENT + body', b);
    CommentIrrelevant(c, STOP, a, LINE_COMMENT + body, LINE_COMMENT + body', b);
  }

  lemma LineCommentJoinsFree(a: seq<Unit>, comment: seq<Unit>, b: seq<Unit>)
    requires LINE_COMMENT <= comment
    ensures JoinsFree(STOP, a, comment + b)
  {
    forall k | 0 <= k <= |a|
      ensures a[k..] + (comment + b) != STOP
    {
      NoLineCommentInStop(a[k..], comment, b);
      assert a[k..] + (comment + b) == a[k..] + comment + b;
    }
  }

  /**
   How a script is laid out never reaches the hash either: a maximal run of whitespace,
   outside comments, may be replaced by any other.
   */
  lemma LayoutNotHashed(c: CharClass, a: seq<Unit>, run: seq<Unit>, run': seq<Unit>, b: seq<Unit>)
    requires c.Valid() && ScriptScan(c, a).ok && (a == [] || !c.space(a[|a| - 1]))
    requires run != [] && White(c, run) && run' != [] && White(c, run')
    requires NoStop(STOP, a + run + b) && NoStop(STOP, a + run' + b)
    ensures ScriptScan(c, a + run + b) == ScriptScan(c, a + run' + b)
  {
    forall k | 0 <= k < |a|
      ensures a[k..] != STOP
    {
      assert a[k..][|a| - k - 1] == a[|a| - 1];
      assert STOP[|STOP| - 1] == LF;
    }
    WhitespaceIrrelevant(c, STOP, a, run, run', b);
  }
}
