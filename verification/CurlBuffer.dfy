/**
 The growing receive buffer of js_curl: the callback curl hands each chunk to, and the
 download that returns everything received. The heap may refuse to grow the buffer, so
 every call carries whether a reallocation would succeed.
 */
module CurlBuffer {
  import opened Options
  import opened Words
  import opened Sequences

  type Byte = b: int | 0 <= b < 256

  /** What a refill adds to the length. */
  function Growth(totalRead: nat): nat {
    if totalRead > 4096 then totalRead + 2048 else 4096
  }

  class PassedBuffer {
    var buffer: array<Byte>
    var totalLength: nat
    var used: nat

    ghost predicate Valid()
      reads this
    {
      buffer.Length == totalLength && used < totalLength < WORD
    }

    ghost function Contents(): seq<Byte>
      reads this, buffer
      requires Valid()
    {
      buffer[..used]
    }

    constructor ()
      ensures Valid() && fresh(buffer) && Contents() == [] && totalLength == 4096
    {
      buffer := new Byte[4096](_ => 0);
      totalLength := 4096;
      used := 0;
    }

    /** HeapReAlloc with HEAP_ZERO_MEMORY; on failure the old block stays. */
    method Reallocate(length: nat, succeeds: bool) returns (ok: bool)
      requires used <= buffer.Length <= length
      modifies this`buffer
      ensures ok == succeeds
      ensures !ok ==> buffer == old(buffer)
      ensures ok ==> fresh(buffer) && buffer.Length == length && buffer[..used] == old(buffer[..used])
    {
      ok := succeeds;
      if ok {
        var old' := buffer;
        var grown := new Byte[length](_ => 0);
        forall k | 0 <= k < old'.Length {
          grown[k] := old'[k];
        }
        buffer := grown;
      }
    }

    /** memcpy of a chunk behind the contents. */
    method CopyIn(data: seq<Byte>)
      requires used + |data| <= buffer.Length
      modifies buffer
      ensures buffer[..used + |data|] == old(buffer[..used]) + data
    {
      forall k | 0 <= k < |data| {
        buffer[used + k] := data[k];
      }
    }

    /**
     write_to_buffer. A chunk is appended, after growing the buffer if it would not leave
     a byte to spare. If growing fails nothing is stored and zero is returned, but the
     length already counts the memory that was not obtained.
     */
    method Write(data: seq<Byte>, succeeds: bool) returns (written: nat)
      requires Valid() && used + |data| < WORD
      requires used + |data| >= totalLength ==> totalLength + Growth(|data|) < WORD
      modifies this, buffer
      ensures var grows := old(used) + |data| >= old(totalLength);
              && totalLength == old(totalLength) + (if grows then Growth(|data|) else 0)
              && (buffer == old(buffer) || fresh(buffer))
              && if grows && !succeeds then
                   written == 0 && used == old(used) && buffer == old(buffer) && buffer[..] == old(buffer[..]) && !Valid()
                 else
                   written == |data| && Valid() && Contents() == old(Contents()) + data
      ensures old(used) + |data| >= old(totalLength) ==>
                totalLength == old(totalLength) + if |data| <= 4096 then 4096 else |data| + 2048
    {
      WrapOnce(|data|);
      WrapOnce(used + |data|);
      var totalRead := Wrap(|data|);
      if Wrap(used + totalRead) >= totalLength {
        WrapOnce(totalLength + Growth(totalRead));
        totalLength := Wrap(totalLength + Growth(totalRead));
        var ok := Reallocate(totalLength, succeeds);
        if !ok {
          return 0;
        }
      }
      CopyIn(data);
      used := Wrap(used + totalRead);
      written := totalRead;
    }
  }

  /** The slack a buffer may carry beyond its contents, for chunks of at most largest bytes. */
  function Slack(largest: nat): nat {
    if largest + 2048 > 4096 then largest + 2048 else 4096
  }

  /**
   curl_perform: curl calls back with one chunk after the other and gives up at the first
   short count. The buffer never holds more than Slack(largest) bytes it does not need; if
   no reallocation fails the result is everything received, and a result is never anything
   else.
   */
  method Perform(chunks: seq<seq<Byte>>, succeeds: seq<bool>, ghost largest: nat)
    returns (r: Option<seq<Byte>>, ghost capacity: nat)
    requires |succeeds| == |chunks|
    requires forall i | 0 <= i < |chunks| :: |chunks[i]| <= largest
    requires |Concat(chunks)| + Slack(largest) < WORD
    ensures r.Some? ==> r.value == Concat(chunks)
    ensures r.Some? ==> |Concat(chunks)| < capacity
    ensures r.Some? ==> capacity <= |Concat(chunks)| + if largest <= 2048 then 4096 else largest + 2048
    ensures (forall i | 0 <= i < |chunks| :: succeeds[i]) ==> r.Some?
    ensures r.None? ==> exists i :: 0 <= i < |chunks| && !succeeds[i] && chunks[i] != []
  {
    var pBuf := new PassedBuffer();
    var i := 0;
    while i < |chunks|
      invariant 0 <= i <= |chunks|
      invariant fresh(pBuf) && fresh(pBuf.buffer) && pBuf.Valid()
      invariant pBuf.Contents() == Concat(chunks[..i])
      invariant pBuf.totalLength <= pBuf.used + Slack(largest)
    {
      ConcatPrefix(chunks, i + 1);
      ConcatSnoc(chunks[..i], chunks[i]);
      assert chunks[..i + 1] == chunks[..i] + [chunks[i]];
      ghost var before := pBuf.used;
      assert before == |Concat(chunks[..i])|;
      var written := pBuf.Write(chunks[i], succeeds[i]);
      if written != |chunks[i]| {
        return None, 0;
      }
      i := i + 1;
    }
    assert chunks[..|chunks|] == chunks;
    r, capacity := Some(pBuf.buffer[..pBuf.used]), pBuf.totalLength;
  }
}
