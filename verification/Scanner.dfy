/**
 HashSomeStuff: the scanner that canonicalises a script while it is hashed. The
 program has two copies of it, one in the signer and one in the loader.

 Canon is the canonical form without a buffer, Feed the way a canonical form is cut
 into calls of CryptHashData, and the method at the end is the program's loop, which
 does both at once over a buffer of 1024 units.
 */
module Scanner {
  import opened Options
  import opened Text
  import opened Sequences

  /** The three values of inQuotes. */
  datatype Quote = Outside | InDouble | InSingle

  /** The quotes after one unit; a unit after a backslash always ends up outside. */
  function QuoteStep(q: Quote, escaped: bool, u: Unit): Quote {
    var q1 := if u == DOUBLE_QUOTE then (if q.Outside? then InDouble else Outside) else q;
    var q2 := if u == APOSTROPHE && !q1.InDouble? then (if q1.Outside? then InSingle else Outside) else q1;
    if escaped then Outside else q2
  }

  const LINE_COMMENT: seq<Unit> := [SLASH, SLASH]
  const BLOCK_COMMENT: seq<Unit> := [SLASH, STAR]
  const BLOCK_END: seq<Unit> := [STAR, SLASH]

  /**
   How many units the scanner jumps over at the start of t, outside quotes: a line
   comment up to its line feed, a block comment with its terminator. The search for
   the terminator starts at the opening slash. None: the comment never ends.
   */
  function Skip(t: seq<Unit>): (n: Option<nat>)
    ensures n.Some? ==> n.value <= |t|
  {
    if LINE_COMMENT <= t then Find(t, [LF])
    else if BLOCK_COMMENT <= t then
      match Find(t, BLOCK_END)
      case None => None
      case Some(k) => Some(k + 2)
    else Some(0)
  }

  /** What a unit starts: nothing is skipped inside quotes. */
  function Jump(t: seq<Unit>, q: Quote): (n: Option<nat>)
    ensures n.Some? ==> n.value <= |t|
  {
    if q.Outside? then Skip(t) else Some(0)
  }

  function Emit(c: CharClass, u: Unit, inWhitespace: bool): seq<Unit> {
    if c.graph(u) then [u] else if c.space(u) && !inWhitespace then [SPACE] else []
  }

  function WhitespaceAfter(c: CharClass, u: Unit, inWhitespace: bool): bool {
    if c.graph(u) then false else c.space(u) || inWhitespace
  }

  /** The scanner between two units: was the last one a backslash, inQuotes, inWhitespace. */
  datatype State = State(escaped: bool, quote: Quote, white: bool)

  const START := State(false, Outside, false)

  /** The canonical form of the rest, and the state it ends in; ok: every comment ended. */
  datatype Scan = Scan(out: seq<Unit>, quote: Quote, white: bool, ok: bool)

  function Canon(c: CharClass, stop: seq<Unit>, t: seq<Unit>, s: State): Scan
    decreases |t|
  {
    if t == [] || t == stop then Scan([], s.quote, s.white, true)
    else
      var q := QuoteStep(s.quote, s.escaped, t[0]);
      match Jump(t, q)
      case None => Scan([], q, s.white, false)
      case Some(n) =>
        var r := Canon(c, stop, After(t, n), Next(c, s, q, At(t, n)));
        r.(out := Emit(c, At(t, n), s.white) + r.out)
  }

  /** What is left of t after n skipped units and the one that follows them. */
  function After(t: seq<Unit>, n: nat): seq<Unit> {
    if n < |t| then t[n + 1..] else []
  }

  function Next(c: CharClass, s: State, q: Quote, u: Unit): State {
    State(u == BACKSLASH, q, WhitespaceAfter(c, u, s.white))
  }

  // -------------------------------------------------------- the calls to the hash

  const BUFFER: nat := 1024

  function Trim(out: seq<Unit>, q: Quote): seq<Unit> {
    if out != [] && out[|out| - 1] == SPACE && q.Outside? then out[..|out| - 1] else out
  }

  /** The calls of CryptHashData for a canonical form whose scan ended with quotes q. */
  function Feed(out: seq<Unit>, q: Quote): seq<seq<Unit>> {
    if |out| >= BUFFER then [out[..BUFFER]] + Feed(out[BUFFER..], q)
    else if out == [] then []
    else [Trim(out, q)]
  }

  /** The data hashed, in order. */
  function Hashed(out: seq<Unit>, q: Quote): seq<Unit> {
    Concat(Feed(out, q))
  }

  /**
   Buffering hashes the canonical form itself, less one trailing space exactly when
   the form does not fill its last buffer, ends in a space, and is not in quotes.
   */
  lemma {:induction false} HashedIs(out: seq<Unit>, q: Quote)
    ensures Hashed(out, q) == if |out| % BUFFER != 0 then Trim(out, q) else out
  {
    if |out| >= BUFFER {
      var first, rest := out[..BUFFER], out[BUFFER..];
      HashedIs(rest, q);
      FullBufferFirst(out, q);
      OneBufferLess(|out|);
      TrimBehind(first, rest, q);
      assert out == first + rest;
    } else {
      LastBuffer(out, q);
    }
  }

  lemma OneBufferLess(n: nat)
    requires n >= BUFFER
    ensures n % BUFFER == (n - BUFFER) % BUFFER
  {
  }

  lemma LastBuffer(out: seq<Unit>, q: Quote)
    requires |out| < BUFFER
    ensures Hashed(out, q) == Trim(out, q) && |out| % BUFFER == |out|
  {
    if out == [] {
      assert Feed(out, q) == [];
    } else {
      var last := Trim(out, q);
      var chunks: seq<seq<Unit>> := [last];
      assert chunks[1..] == [];
      assert Concat(chunks) == last + [];
    }
  }

  lemma FullBufferFirst(out: seq<Unit>, q: Quote)
    requires |out| >= BUFFER
    ensures Hashed(out, q) == out[..BUFFER] + Hashed(out[BUFFER..], q)
  {
    assert Feed(out, q)[1..] == Feed(out[BUFFER..], q);
  }

  lemma TrimBehind(first: seq<Unit>, rest: seq<Unit>, q: Quote)
    ensures rest != [] ==> Trim(first + rest, q) == first + Trim(rest, q)
  {
    if rest != [] {
      assert (first + rest)[..|first + rest| - 1] == first + rest[..|rest| - 1];
    }
  }

  /** Every call but the last passes exactly one full buffer, and no call more. */
  lemma {:induction false} FeedSizes(out: seq<Unit>, q: Quote)
    ensures |Feed(out, q)| == (|out| + 1023) / 1024
    ensures forall k | 0 <= k < |Feed(out, q)| - 1 :: |Feed(out, q)[k]| == 1024
    ensures forall k | 0 <= k < |Feed(out, q)| :: |Feed(out, q)[k]| <= 1024
  {
    if |out| >= BUFFER {
      FeedSizes(out[BUFFER..], q);
    }
  }

  // ------------------------------------------------------------------- the program

  /** A hash object: the data of every CryptHashData call, in order. */
  class HashObject {
    var calls: seq<seq<Unit>>

    constructor ()
      ensures calls == []
    {
      calls := [];
    }

    method CryptHashData(data: seq<Unit>)
      modifies this
      ensures calls == old(calls) + [data]
    {
      calls := calls + [data];
    }
  }

  /** The two comment loops of the scanner, from position i outside quotes. */
  method SkipComment(contents: seq<Unit>, i: nat) returns (j: nat)
    requires i < |contents| && Skip(contents[i..]).Some?
    ensures j == i + Skip(contents[i..]).value
  {
    j := i;
    ghost var t := contents[i..];
    if At(contents, j) == SLASH && At(contents, j + 1) == SLASH {
      FindLeast(t, [LF]);
      ghost var f := Find(t, [LF]).value;
      assert t[f..][0] == contents[i + f] == LF;
      while contents[j] != LF
        invariant i <= j <= i + f
        decreases i + f - j
      {
        j := j + 1;
      }
      FoundHere(t, [LF], j - i);
    }
    if At(contents, j) == SLASH && At(contents, j + 1) == STAR {
      FindLeast(t, BLOCK_END);
      ghost var f := Find(t, BLOCK_END).value;
      assert t[f..][0] == At(contents, i + f) == STAR && t[f..][1] == At(contents, i + f + 1) == SLASH;
      while !(At(contents, j) == STAR && At(contents, j + 1) == SLASH)
        invariant i <= j <= i + f
        decreases i + f - j
      {
        j := j + 1;
      }
      FoundHere(t, BLOCK_END, j - i);
      j := j + 2;
    }
  }

  /** The shape of the buffer between two units: the used part holds no NUL, the rest is zeroed. */
  ghost predicate Clean(buffer: seq<Unit>, used: nat) {
    && |buffer| == BUFFER && used <= BUFFER
    && (forall k | 0 <= k < used :: buffer[k] != NUL)
    && (forall k | used <= k < BUFFER :: buffer[k] == NUL)
  }

  /** The three quote tests of the scanner at position i. */
  method UpdateQuotes(contents: seq<Unit>, i: nat, q: Quote) returns (inQuotes: Quote)
    requires i < |contents|
    ensures inQuotes == QuoteStep(q, i > 0 && contents[i - 1] == BACKSLASH, contents[i])
  {
    inQuotes := q;
    if contents[i] == DOUBLE_QUOTE {
      if inQuotes.Outside? { inQuotes := InDouble; } else { inQuotes := Outside; }
    }
    if contents[i] == APOSTROPHE && !inQuotes.InDouble? {
      if inQuotes.Outside? { inQuotes := InSingle; } else { inQuotes := Outside; }
    }
    if !inQuotes.Outside? && i > 0 && contents[i - 1] == BACKSLASH {
      inQuotes := Outside;
    }
  }

  /** What one unit of text adds to the buffer. */
  method Store(c: CharClass, u: Unit, buffer: array<Unit>, used: nat, white: bool) returns (bufferUsed: nat, inWhitespace: bool)
    requires c.Valid() && Clean(buffer[..], used) && used < BUFFER
    modifies buffer
    ensures Clean(buffer[..], bufferUsed)
    ensures buffer[..bufferUsed] == old(buffer[..used]) + Emit(c, u, white)
    ensures inWhitespace == WhitespaceAfter(c, u, white)
  {
    bufferUsed, inWhitespace := used, white;
    if c.graph(u) {
      inWhitespace := false;
      buffer[bufferUsed] := u;
      bufferUsed := bufferUsed + 1;
    } else if c.space(u) {
      if !inWhitespace {
        buffer[bufferUsed] := SPACE;
        bufferUsed := bufferUsed + 1;
        inWhitespace := true;
      }
    }
  }

  /** The flush after every unit; tail is what the scan will still emit. */
  method FlushIfFull(buffer: array<Unit>, used: nat, hHash: HashObject, ghost tail: seq<Unit>, ghost q: Quote)
    returns (bufferUsed: nat)
    requires Clean(buffer[..], used)
    modifies buffer, hHash
    ensures Clean(buffer[..], bufferUsed) && bufferUsed < BUFFER
    ensures hHash.calls + Feed(buffer[..bufferUsed] + tail, q) == old(hHash.calls + Feed(buffer[..used] + tail, q))
  {
    bufferUsed := used;
    if bufferUsed == BUFFER {
      ghost var out := buffer[..used] + tail;
      assert out[..BUFFER] == buffer[..] && out[BUFFER..] == tail;
      hHash.CryptHashData(buffer[..]);
      bufferUsed := 0;
      forall k | 0 <= k < BUFFER {
        buffer[k] := NUL;
      }
      assert buffer[..0] + tail == tail;
    }
  }

  /** The second half of a turn: store the unit and flush; was is what comes from it on, due what comes after it. */
  method Hash(c: CharClass, u: Unit, buffer: array<Unit>, used: nat, white: bool, hHash: HashObject,
              ghost was: seq<Unit>, ghost due: seq<Unit>, ghost final: Quote)
    returns (bufferUsed: nat, inWhitespace: bool)
    requires c.Valid() && Clean(buffer[..], used) && used < BUFFER && was == Emit(c, u, white) + due
    modifies buffer, hHash
    ensures Clean(buffer[..], bufferUsed) && bufferUsed < BUFFER
    ensures inWhitespace == WhitespaceAfter(c, u, white)
    ensures hHash.calls + Feed(buffer[..bufferUsed] + due, final)
         == old(hHash.calls + Feed(buffer[..used] + was, final))
  {
    ghost var held := buffer[..used];
    bufferUsed, inWhitespace := Store(c, u, buffer, used, white);
    assert held + was == held + Emit(c, u, white) + due;
    bufferUsed := FlushIfFull(buffer, bufferUsed, hHash, due, final);
  }

  /** The flush after the last unit. */
  method FlushRest(buffer: array<Unit>, used: nat, inQuotes: Quote, hHash: HashObject)
    requires Clean(buffer[..], used) && used < BUFFER
    modifies hHash
    ensures hHash.calls == old(hHash.calls) + Feed(buffer[..used], inQuotes)
  {
    WcsLenIs(buffer[..], used);
    if WcsLen(buffer[..]) > 0 {
      var bufferUsed := WcsLen(buffer[..]);
      if buffer[bufferUsed - 1] == SPACE && inQuotes.Outside? {
        bufferUsed := bufferUsed - 1;
      }
      assert buffer[..bufferUsed] == Trim(buffer[..used], inQuotes);
      hHash.CryptHashData(buffer[..bufferUsed]);
    }
  }

  /** What the program's state at position i still has to emit. */
  ghost function Coming(c: CharClass, stop: seq<Unit>, contents: seq<Unit>, i: nat, q: Quote, white: bool): Scan {
    var escaped := 0 < i <= |contents| && contents[i - 1] == BACKSLASH;
    if i < |contents| then Canon(c, stop, contents[i..], State(escaped, q, white)) else Scan([], q, white, true)
  }

  /** In a scan that ends well, the comment at hand ends. */
  lemma CommentEnds(c: CharClass, stop: seq<Unit>, contents: seq<Unit>, i: nat, q: Quote, white: bool)
    requires i < |contents| && contents[i..] != stop && Coming(c, stop, contents, i, q, white).ok
    ensures Jump(contents[i..], QuoteStep(q, i > 0 && contents[i - 1] == BACKSLASH, contents[i])).Some?
  {
  }

  /** One unfolding of Canon, at the program's positions: j is where the unit to hash is. */
  lemma ComingStep(c: CharClass, stop: seq<Unit>, contents: seq<Unit>, i: nat, q: Quote, white: bool, q1: Quote, j: nat)
    requires i < |contents| && contents[i..] != stop && i <= j
    requires q1 == QuoteStep(q, i > 0 && contents[i - 1] == BACKSLASH, contents[i])
    requires Jump(contents[i..], q1) == Some(j - i)
    ensures var due := Coming(c, stop, contents, j + 1, q1, WhitespaceAfter(c, At(contents, j), white));
            Coming(c, stop, contents, i, q, white) == due.(out := Emit(c, At(contents, j), white) + due.out)
  {
    var t, n := contents[i..], j - i;
    assert At(t, n) == At(contents, j);
    assert After(t, n) == if j + 1 < |contents| then contents[j + 1..] else [];
    var s := State(i > 0 && contents[i - 1] == BACKSLASH, q, white);
    assert Canon(c, stop, After(t, n), Next(c, s, q1, At(t, n)))
        == Coming(c, stop, contents, j + 1, q1, WhitespaceAfter(c, At(contents, j), white));
  }

  /** The first half of a turn: update the quotes and pass over a comment. */
  method Advance(c: CharClass, contents: seq<Unit>, ghost stop: seq<Unit>, i: nat, quotes: Quote, ghost white: bool,
                 ghost was: Scan)
    returns (j: nat, inQuotes: Quote, ghost due: Scan)
    requires i < |contents| && contents[i..] != stop
    requires was == Coming(c, stop, contents, i, quotes, white) && was.ok
    ensures i <= j
    ensures due == Coming(c, stop, contents, j + 1, inQuotes, WhitespaceAfter(c, At(contents, j), white))
    ensures was == due.(out := Emit(c, At(contents, j), white) + due.out)
  {
    CommentEnds(c, stop, contents, i, quotes, white);
    j := i;
    inQuotes := UpdateQuotes(contents, i, quotes);
    if inQuotes.Outside? {
      j := SkipComment(contents, j);
    }
    ComingStep(c, stop, contents, i, quotes, white, inQuotes, j);
    due := Coming(c, stop, contents, j + 1, inQuotes, WhitespaceAfter(c, At(contents, j), white));
  }

  /** One turn of the loop: whatever is emitted now was due, and what remains is due later. */
  method Turn(c: CharClass, contents: seq<Unit>, ghost stop: seq<Unit>, i: nat, used: nat, quotes: Quote, white: bool,
              buffer: array<Unit>, hHash: HashObject, ghost was: Scan, ghost final: Quote)
    returns (next: nat, bufferUsed: nat, inQuotes: Quote, inWhitespace: bool, ghost due: Scan)
    requires c.Valid() && i < |contents| && contents[i..] != stop
    requires Clean(buffer[..], used) && used < BUFFER
    requires was == Coming(c, stop, contents, i, quotes, white) && was.ok
    modifies buffer, hHash
    ensures i < next && Clean(buffer[..], bufferUsed) && bufferUsed < BUFFER
    ensures due == Coming(c, stop, contents, next, inQuotes, inWhitespace)
    ensures due.ok && due.quote == was.quote
    ensures hHash.calls + Feed(buffer[..bufferUsed] + due.out, final)
         == old(hHash.calls + Feed(buffer[..used] + was.out, final))
  {
    next, inQuotes, due := Advance(c, contents, stop, i, quotes, white, was);
    var u := At(contents, next);
    bufferUsed, inWhitespace := Hash(c, u, buffer, used, white, hHash, was.out, due.out, final);
    next := next + 1;
  }

  method HashSomeStuff(c: CharClass, contents: seq<Unit>, stop: seq<Unit>, hHash: HashObject)
    requires c.Valid() && NUL !in contents
    requires Canon(c, stop, contents, START).ok
    modifies hHash
    ensures var scan := Canon(c, stop, contents, START);
            hHash.calls == old(hHash.calls) + Feed(scan.out, scan.quote)
  {
    var buffer := new Unit[BUFFER](_ => NUL);
    var bufferUsed: nat := 0;
    var inQuotes := Outside;
    var inWhitespace := false;
    var i: nat := 0;
    ghost var scan := Canon(c, stop, contents, START);
    ghost var due, goal := scan, hHash.calls + Feed(scan.out, scan.quote);
    assert contents[0..] == contents && buffer[..0] + scan.out == scan.out;
    while i < |contents|
      invariant Clean(buffer[..], bufferUsed) && bufferUsed < BUFFER
      invariant due == Coming(c, stop, contents, i, inQuotes, inWhitespace)
      invariant due.ok && due.quote == scan.quote
      invariant hHash.calls + Feed(buffer[..bufferUsed] + due.out, scan.quote) == goal
      decreases |contents| - i
    {
      if contents[i..] == stop {
        break;
      }
      i, bufferUsed, inQuotes, inWhitespace, due :=
        Turn(c, contents, stop, i, bufferUsed, inQuotes, inWhitespace, buffer, hHash, due, scan.quote);
    }
    assert due.out == [] && due.quote == inQuotes;
    assert buffer[..bufferUsed] + [] == buffer[..bufferUsed];
    FlushRest(buffer, bufferUsed, inQuotes, hHash);
  }
}
