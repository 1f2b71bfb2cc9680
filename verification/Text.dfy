/**
 UTF-16 text as the scanner sees it: 16-bit units up to the terminating NUL, the
 two character classes of the C library, and substring search.
 */
module Text {
  import opened Options

  /** A WCHAR. */
  type Unit = u: int | 0 <= u < 0x10000

  const NUL: Unit := 0
  const LF: Unit := 0x0A
  const CR: Unit := 0x0D
  const SPACE: Unit := 0x20
  const DOUBLE_QUOTE: Unit := 0x22
  const APOSTROPHE: Unit := 0x27
  const STAR: Unit := 0x2A
  const SLASH: Unit := 0x2F
  const BACKSLASH: Unit := 0x5C

  /** An ASCII literal as units. */
  function Units(s: string): seq<Unit> {
    seq(|s|, i requires 0 <= i < |s| => s[i] as int % 0x10000)
  }

  /** iswgraph and iswspace of the current locale. */
  datatype CharClass = CharClass(graph: Unit -> bool, space: Unit -> bool) {
    /** What every locale guarantees: the ASCII range, and that the classes are disjoint. */
    ghost predicate Valid() {
      && (forall u: Unit :: !(graph(u) && space(u)))
      && (forall u: Unit :: 0x21 <= u <= 0x7E ==> graph(u))
      && space(SPACE) && space(CR) && space(LF)
      && !graph(NUL) && !space(NUL)
    }
  }

  /** `t[i]` of a NUL-terminated text. */
  function At(t: seq<Unit>, i: nat): Unit {
    if i < |t| then t[i] else NUL
  }

  /** wcsstr: where the first occurrence of s in t starts. */
  function Find(t: seq<Unit>, s: seq<Unit>): (r: Option<nat>)
    ensures r.Some? ==> r.value + |s| <= |t|
  {
    if s <= t then Some(0)
    else if t == [] then None
    else
      match Find(t[1..], s)
      case None => None
      case Some(k) => Some(k + 1)
  }

  /** Find is the least occurrence, and None only when there is no occurrence. */
  lemma {:induction false} FindLeast(t: seq<Unit>, s: seq<Unit>)
    ensures match Find(t, s)
            case None => forall k | 0 <= k <= |t| :: !(s <= t[k..])
            case Some(f) => s <= t[f..] && forall k | 0 <= k < f :: !(s <= t[k..])
  {
    if s <= t {
      assert t[0..] == t;
    } else if t != [] {
      FindLeast(t[1..], s);
      var bound := match Find(t[1..], s) case None => |t| case Some(f) => f;
      forall k | 0 <= k <= bound
        ensures !(s <= t[k..])
      {
        NotHere(t, s, k);
      }
      match Find(t[1..], s) {
        case None =>
        case Some(f) => assert t[1..][f..] == t[f + 1..];
      }
    }
  }

  lemma NotHere(t: seq<Unit>, s: seq<Unit>, k: nat)
    requires t != [] && k <= |t| && !(s <= t)
    requires k != 0 ==> !(s <= t[1..][k - 1..])
    ensures !(s <= t[k..])
  {
    if k == 0 {
      assert t[0..] == t;
    } else {
      assert t[1..][k - 1..] == t[k..];
    }
  }

  /** An occurrence is not before the one found. */
  lemma FoundNoLater(t: seq<Unit>, s: seq<Unit>, k: nat)
    requires k <= |t| && s <= t[k..]
    ensures Find(t, s).Some? && Find(t, s).value <= k
  {
    FindLeast(t, s);
  }

  /** The occurrence found is the one before which there is no other. */
  lemma FindIs(t: seq<Unit>, s: seq<Unit>, f: nat)
    requires f <= |t| && s <= t[f..]
    requires forall k | 0 <= k < f :: !(s <= t[k..])
    ensures Find(t, s) == Some(f)
  {
    FindLeast(t, s);
  }

  /** s occurs in t at k, and nowhere before. */
  predicate FirstAt(t: seq<Unit>, s: seq<Unit>, k: nat) {
    k <= |t| && s <= t[k..] && forall j | 0 <= j < k :: !(s <= t[j..])
  }

  predicate Nowhere(t: seq<Unit>, s: seq<Unit>) {
    forall j | 0 <= j <= |t| :: !(s <= t[j..])
  }

  lemma FindNowhere(t: seq<Unit>, s: seq<Unit>)
    ensures Find(t, s).None? <==> Nowhere(t, s)
    ensures Find(t, s).Some? ==> FirstAt(t, s, Find(t, s).value)
  {
    FindLeast(t, s);
  }

  lemma SliceAppend(t: seq<Unit>, y: seq<Unit>, k: nat)
    requires k <= |t|
    ensures (t + y)[k..] == t[k..] + y && (t + y)[..k] == t[..k]
  {
  }

  /** An occurrence at or before the one found is the one found. */
  lemma FoundHere(t: seq<Unit>, s: seq<Unit>, k: nat)
    requires Find(t, s).Some? && k <= Find(t, s).value && s <= t[k..]
    ensures Find(t, s) == Some(k)
  {
    FindLeast(t, s);
  }

  /** wcsrchr: the last position of u in t. */
  function FindLast(t: seq<Unit>, u: Unit): (r: Option<nat>)
    ensures match r
            case None => forall k | 0 <= k < |t| :: t[k] != u
            case Some(f) => f < |t| && t[f] == u && forall k | f < k < |t| :: t[k] != u
  {
    if t == [] then None
    else
      match FindLast(t[1..], u)
      case None => if t[0] == u then Some(0) else None
      case Some(f) => Some(f + 1)
  }

  /** wcslen of a buffer: the units before the first NUL. */
  function WcsLen(s: seq<Unit>): (n: nat)
    ensures n <= |s|
  {
    if s == [] || s[0] == NUL then 0 else 1 + WcsLen(s[1..])
  }

  lemma {:induction false} WcsLenIs(s: seq<Unit>, n: nat)
    requires n <= |s| && (n < |s| ==> s[n] == NUL)
    requires forall k | 0 <= k < n :: s[k] != NUL
    ensures WcsLen(s) == n
  {
    if n != 0 {
      WcsLenIs(s[1..], n - 1);
    }
  }
}
