/**
 The intrusive circular lists of prclist.h. A ring is the sequence of its nodes; the
 pointers of the nodes are what the macros read and write.
 */
module Ring {

  class Link {
    var next: Link
    var prev: Link

    /** PR_INIT_STATIC_CLIST. */
    constructor ()
      ensures next == this && prev == this
    {
      next, prev := this, this;
    }
  }

  function Succ(i: nat, n: nat): (j: nat)
    requires i < n
    ensures j < n
  {
    if i + 1 == n then 0 else i + 1
  }

  ghost predicate Distinct(r: seq<Link>) {
    forall i, j | 0 <= i < j < |r| :: r[i] != r[j]
  }

  /** The nodes of r, in this order, form one circular list. */
  ghost predicate IsRing(r: seq<Link>)
    reads r
  {
    && Distinct(r)
    && (forall i | 0 <= i < |r| :: r[i].next == r[Succ(i, |r|)])
    && (forall i | 0 <= i < |r| :: r[Succ(i, |r|)].prev == r[i])
  }

  /** Where the list starts does not matter. */
  lemma Rotate(a: seq<Link>, b: seq<Link>)
    requires IsRing(a + b)
    ensures IsRing(b + a)
  {
    var r, r', n := a + b, b + a, |a| + |b|;
    forall i | 0 <= i < n
      ensures r'[i] == r[Turn(i, |a|, |b|)]
    {
    }
    forall i | 0 <= i < n
      ensures r'[i].next == r'[Succ(i, n)] && r'[Succ(i, n)].prev == r'[i]
    {
      assert Turn(Succ(i, n), |a|, |b|) == Succ(Turn(i, |a|, |b|), n);
    }
    forall i, j | 0 <= i < j < n
      ensures r'[i] != r'[j]
    {
      assert r'[i] == r[Turn(i, |a|, |b|)] && r'[j] == r[Turn(j, |a|, |b|)];
    }
  }

  /** Where node i of b + a stands in a + b. */
  function Turn(i: nat, a: nat, b: nat): (k: nat)
    requires i < a + b
    ensures k < a + b
  {
    if i < b then a + i else i - b
  }

  /** PR_INIT_CLIST. */
  method Init(l: Link)
    modifies l
    ensures IsRing([l])
  {
    l.next := l;
    l.prev := l;
  }

  function InsertAt(r: seq<Link>, k: nat, e: Link): seq<Link>
    requires k <= |r|
  {
    r[..k] + [e] + r[k..]
  }

  function RemoveAt(r: seq<Link>, k: nat): seq<Link>
    requires k < |r|
  {
    r[..k] + r[k + 1..]
  }

  function Pred(i: nat, n: nat): (j: nat)
    requires i < n
    ensures j < n && Succ(j, n) == i
  {
    if i == 0 then n - 1 else i - 1
  }

  /** The nodes between which position k of r lies. */
  function LeftOf(r: seq<Link>, k: nat): Link
    requires k <= |r| && r != []
  {
    if k == 0 then r[|r| - 1] else r[k - 1]
  }

  function RightOf(r: seq<Link>, k: nat): Link
    requires k <= |r| && r != []
  {
    if k == |r| then r[0] else r[k]
  }

  /** A ring in which one link has been replaced by a way through e is a ring with e in it. */
  lemma InsertedAt(r: seq<Link>, k: nat, e: Link)
    requires r != [] && k <= |r| && Distinct(r) && e !in r
    requires forall i | 0 <= i < |r| && r[i] != LeftOf(r, k) ::
               r[i].next == r[Succ(i, |r|)] && r[Succ(i, |r|)].prev == r[i]
    requires LeftOf(r, k).next == e && e.prev == LeftOf(r, k)
    requires e.next == RightOf(r, k) && RightOf(r, k).prev == e
    ensures IsRing(InsertAt(r, k, e))
  {
    var r', n := InsertAt(r, k, e), |r|;
    forall i | 0 <= i < n + 1
      ensures r'[i].next == r'[Succ(i, n + 1)] && r'[Succ(i, n + 1)].prev == r'[i]
    {
      if i == k {
        assert r'[Succ(i, n + 1)] == RightOf(r, k);
      } else {
        var j := if i < k then i else i - 1;
        assert r'[i] == r[j];
        assert if r[j] == LeftOf(r, k) then r'[Succ(i, n + 1)] == e else r'[Succ(i, n + 1)] == r[Succ(j, n)];
      }
    }
  }

  /** PR_INSERT_BEFORE, where l is node k of ring r; a node alone in its ring may be inserted before itself. */
  method InsertBefore(e: Link, l: Link, ghost r: seq<Link>, ghost k: nat)
    requires IsRing(r) && k < |r| && r[k] == l
    requires e !in r || r == [e]
    modifies e, l`prev, l.prev`next
    ensures IsRing(if e == l then r else InsertAt(r, k, e))
  {
    assert l.prev == LeftOf(r, k) by { RemoveNeighbours(r, k); }
    e.next := l;
    e.prev := l.prev;
    l.prev.next := e;
    l.prev := e;
    if e != l {
      InsertedAt(r, k, e);
    }
  }

  /** PR_INSERT_AFTER, where l is node k of ring r; a node alone in its ring may be inserted after itself. */
  method InsertAfter(e: Link, l: Link, ghost r: seq<Link>, ghost k: nat)
    requires IsRing(r) && k < |r| && r[k] == l
    requires e !in r || r == [e]
    modifies e, l`next, l.next`prev
    ensures IsRing(if e == l then r else InsertAt(r, k + 1, e))
  {
    assert l.next == RightOf(r, k + 1) by { RemoveNeighbours(r, k); }
    e.next := l.next;
    e.prev := l;
    l.next.prev := e;
    l.next := e;
    if e != l {
      InsertedAt(r, k + 1, e);
    }
  }

  /** PR_REMOVE_LINK of node k of ring r; the node keeps its own pointers. */
  method RemoveLink(e: Link, ghost r: seq<Link>, ghost k: nat)
    requires IsRing(r) && k < |r| && r[k] == e
    modifies e.prev`next, e.next`prev
    ensures IsRing(RemoveAt(r, k))
    ensures e.next == old(e.next) && e.prev == old(e.prev)
  {
    RemoveNeighbours(r, k);
    e.prev.next := e.next;
    e.next.prev := e.prev;
    RemovedAt(r, k);
  }

  /** PR_REMOVE_AND_INIT_LINK. */
  method RemoveAndInit(e: Link, ghost r: seq<Link>, ghost k: nat)
    requires IsRing(r) && k < |r| && r[k] == e
    modifies e, e.prev`next, e.next`prev
    ensures IsRing(RemoveAt(r, k)) && IsRing([e])
  {
    RemoveNeighbours(r, k);
    e.prev.next := e.next;
    e.next.prev := e.prev;
    RemovedAt(r, k);
    e.next := e;
    e.prev := e;
  }

  lemma RemoveNeighbours(r: seq<Link>, k: nat)
    requires IsRing(r) && k < |r|
    ensures r[k].prev == r[Pred(k, |r|)] && r[k].next == r[Succ(k, |r|)]
  {
  }

  lemma DistinctRemove(r: seq<Link>, k: nat)
    requires k < |r| && Distinct(r)
    ensures Distinct(RemoveAt(r, k))
  {
    forall i, j | 0 <= i < j < |r| - 1
      ensures RemoveAt(r, k)[i] != RemoveAt(r, k)[j]
    {
      assert RemoveAt(r, k)[i] == r[if i < k then i else i + 1];
      assert RemoveAt(r, k)[j] == r[if j < k then j else j + 1];
    }
  }

  /** A ring but for node k, around which its neighbours are linked, is a ring without node k. */
  lemma RemovedAt(r: seq<Link>, k: nat)
    requires k < |r| && Distinct(r)
    requires forall i | 0 <= i < |r| && i != k && Succ(i, |r|) != k ::
               r[i].next == r[Succ(i, |r|)] && r[Succ(i, |r|)].prev == r[i]
    requires r[Pred(k, |r|)].next == r[Succ(k, |r|)] && r[Succ(k, |r|)].prev == r[Pred(k, |r|)]
    ensures IsRing(RemoveAt(r, k))
  {
    var r', n := RemoveAt(r, k), |r|;
    DistinctRemove(r, k);
    forall i | 0 <= i < n - 1
      ensures r'[i].next == r'[Succ(i, n - 1)] && r'[Succ(i, n - 1)].prev == r'[i]
    {
      var j := if i < k then i else i + 1;
      assert r'[i] == r[j];
      assert r'[Succ(i, n - 1)] == r[if Succ(j, n) == k then Succ(k, n) else Succ(j, n)];
    }
  }

  // --------------------------------------------------- removing and putting back

  /** Inserting what was removed, behind the node it was removed from, gives the ring back. */
  lemma PutBackRing(r: seq<Link>, k: nat)
    requires k < |r| && |r| > 1
    requires var p := Pred(k, |r|);
             IsRing(InsertAt(RemoveAt(r, k), (if p < k then p else p - 1) + 1, r[k]))
    ensures IsRing(r)
  {
    if k == 0 {
      assert InsertAt(RemoveAt(r, 0), |r| - 1, r[0]) == r[1..] + r[..1];
      Rotate(r[1..], r[..1]);
      assert r[..1] + r[1..] == r;
    } else {
      assert InsertAt(RemoveAt(r, k), k, r[k]) == r;
    }
  }

  /** PR_INSERT_AFTER of a removed node at the node its own prev still names. */
  method PutBack(x: Link, ghost r: seq<Link>, ghost k: nat)
    requires Distinct(r) && k < |r| && r[k] == x && x.prev == r[Pred(k, |r|)]
    requires IsRing(if |r| == 1 then r else RemoveAt(r, k))
    modifies r
    ensures IsRing(r)
  {
    ghost var ring, p := PutBackPlace(x, r, k);
    InsertAfter(x, x.prev, ring, p);
    if |r| > 1 {
      PutBackRing(r, k);
    }
  }

  /** Where the node goes back to: behind place p of the ring without it, or of its own ring. */
  lemma PutBackPlace(x: Link, r: seq<Link>, k: nat) returns (ring: seq<Link>, p: nat)
    requires Distinct(r) && k < |r| && r[k] == x && x.prev == r[Pred(k, |r|)]
    requires IsRing(if |r| == 1 then r else RemoveAt(r, k))
    ensures IsRing(ring) && p < |ring| && ring[p] == x.prev && x.prev.next in r && x.prev in r
    ensures if |r| == 1 then ring == r == [x] && x.prev == x
            else ring == RemoveAt(r, k) && x !in ring && p == (if Pred(k, |r|) < k then Pred(k, |r|) else Pred(k, |r|) - 1)
  {
    p := Pred(k, |r|);
    if |r| == 1 {
      ring := r;
      assert r == [x];
    } else {
      ring := RemoveAt(r, k);
      p := if p < k then p else p - 1;
      assert ring[p] == x.prev;
      RemoveNeighbours(ring, p);
      NotThere(r, k);
      InRing(r, k, Succ(p, |ring|));
    }
  }

  lemma InRing(r: seq<Link>, k: nat, i: nat)
    requires k < |r| && i < |r| - 1
    ensures RemoveAt(r, k)[i] in r
  {
    assert RemoveAt(r, k)[i] == r[if i < k then i else i + 1];
  }

  /**
   Removing any nodes of a ring, one after the other, and putting them back in reverse
   order, each behind the node its retained pointer names, restores the whole ring.
   */
  method RemoveAndPutBack(xs: seq<Link>, ghost r: seq<Link>)
    requires IsRing(r) && Distinct(xs) && forall x | x in xs :: x in r
    modifies r
    ensures IsRing(r)
    ensures forall i | 0 <= i < |r| :: r[i].next == old(r[i].next) && r[i].prev == old(r[i].prev)
    decreases |xs|
  {
    if xs == [] {
      return;
    }
    var x := xs[0];
    ghost var k := PositionOf(r, x);
    ghost var rest := RemoveAt(r, k);
    RemoveNeighbours(r, k);
    RemoveLink(x, r, k);
    NotThere(r, k);
    forall y | y in xs[1..]
      ensures y in rest
    {
      StillThere(r, k, y);
    }
    RemoveAndPutBack(xs[1..], rest);
    PutBack(x, r, k);
    SameRingSameLinks(r);
  }

  /** A ring leaves its nodes no choice of pointers, so two states with the same ring agree on all of them. */
  twostate lemma SameRingSameLinks(r: seq<Link>)
    requires old(IsRing(r)) && IsRing(r)
    ensures forall i | 0 <= i < |r| :: r[i].next == old(r[i].next) && r[i].prev == old(r[i].prev)
  {
    forall i | 0 <= i < |r|
      ensures r[i].next == old(r[i].next) && r[i].prev == old(r[i].prev)
    {
      assert Succ(Pred(i, |r|), |r|) == i;
      assert old(r[i].prev) == r[Pred(i, |r|)];
    }
  }

  lemma PositionOf(r: seq<Link>, x: Link) returns (k: nat)
    requires x in r
    ensures k < |r| && r[k] == x
  {
    k :| k < |r| && r[k] == x;
  }

  lemma NotThere(r: seq<Link>, k: nat)
    requires Distinct(r) && k < |r|
    ensures r[k] !in RemoveAt(r, k)
  {
    forall i | 0 <= i < |r| - 1
      ensures RemoveAt(r, k)[i] != r[k]
    {
      assert RemoveAt(r, k)[i] == r[if i < k then i else i + 1];
    }
  }

  lemma StillThere(r: seq<Link>, k: nat, y: Link)
    requires k < |r| && y in r && y != r[k]
    ensures y in RemoveAt(r, k)
  {
    var i :| 0 <= i < |r| && r[i] == y;
    assert RemoveAt(r, k)[if i < k then i else i - 1] == y;
  }
}
