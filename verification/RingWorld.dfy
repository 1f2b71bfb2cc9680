/**
 Any number of rings at once, and arbitrary runs of the list macros over them.
 */
module RingWorld {
  import opened Ring

  /** The rings in existence; a ring that has lost its nodes stays as an empty sequence. */
  type World = seq<seq<Link>>

  datatype Op =
    | InitNode(e: Link)
    | Before(e: Link, l: Link)
    | Behind(e: Link, l: Link)
    | RemoveInit(e: Link)

  ghost function Nodes(w: World): set<Link> {
    set i, k | 0 <= i < |w| && 0 <= k < |w[i]| :: w[i][k]
  }

  ghost predicate Apart(w: World) {
    forall i, j, k | 0 <= i < |w| && 0 <= j < |w| && i != j && 0 <= k < |w[i]| :: w[i][k] !in w[j]
  }

  /** The nodes are partitioned into circular lists. */
  ghost predicate Partition(w: World)
    reads Nodes(w)
  {
    Apart(w) && forall i | 0 <= i < |w| :: IsRing(w[i])
  }

  // ------------------------------------------------------ what the macros mean

  ghost function IndexOf(r: seq<Link>, x: Link): (k: nat)
    requires x in r
    ensures k < |r| && r[k] == x
  {
    if r[0] == x then 0 else 1 + IndexOf(r[1..], x)
  }

  /** e is alone in its ring, or in no ring yet. */
  ghost predicate Detached(w: World, e: Link) {
    forall i | 0 <= i < |w| && e in w[i] :: w[i] == [e]
  }

  ghost predicate Present(w: World, l: Link) {
    exists i :: 0 <= i < |w| && l in w[i]
  }

  /** What the header asks of a caller. */
  ghost predicate Legal(op: Op, w: World) {
    match op
    case InitNode(e) => Detached(w, e)
    case Before(e, l) => Detached(w, e) && Present(w, l)
    case Behind(e, l) => Detached(w, e) && Present(w, l)
    case RemoveInit(e) => Present(w, e)
  }

  /** A node alone may also be inserted next to itself, which changes nothing. */
  ghost predicate NextToItself(op: Op) {
    (op.Before? || op.Behind?) && op.e == op.l
  }

  ghost function ApplyToRing(op: Op, r: seq<Link>): seq<Link> {
    if NextToItself(op) then r else
    match op
    case InitNode(e) => if r == [e] then [] else r
    case Before(e, l) => if r == [e] then [] else if l in r then InsertAt(r, IndexOf(r, l), e) else r
    case Behind(e, l) => if r == [e] then [] else if l in r then InsertAt(r, IndexOf(r, l) + 1, e) else r
    case RemoveInit(e) => if e in r then RemoveAt(r, IndexOf(r, e)) else r
  }

  /** One insertion into one ring, or one deletion from one ring and a new ring of one node. */
  ghost function Apply(op: Op, w: World): World {
    var w' := seq(|w|, i requires 0 <= i < |w| => ApplyToRing(op, w[i]));
    if op.InitNode? || op.RemoveInit? then w' + [[op.e]] else w'
  }

  ghost predicate LegalRun(ops: seq<Op>, w: World) {
    ops == [] || (Legal(ops[0], w) && LegalRun(ops[1..], Apply(ops[0], w)))
  }

  ghost function ApplyAll(ops: seq<Op>, w: World): World {
    if ops == [] then w else ApplyAll(ops[1..], Apply(ops[0], w))
  }

  ghost function Touched(ops: seq<Op>): set<Link> {
    set i | 0 <= i < |ops| :: ops[i].e
  }

  // ------------------------------------------------------------- the macros run

  /** The macro an operation stands for. */
  method Do(op: Op, ghost w: World)
    requires Partition(w) && Legal(op, w)
    modifies Nodes(w), op.e
    ensures Partition(Apply(op, w))
  {
    match op
    case InitNode(e) =>
      OthersApart(w, e);
      Init(e);
      InitKeeps(op, w);
    case Before(e, l) =>
      if e == l {
        DoAlone(op, w);
      } else {
        DoBefore(op, w);
      }
    case Behind(e, l) =>
      if e == l {
        DoAlone(op, w);
      } else {
        DoBehind(op, w);
      }
    case RemoveInit(e) =>
      ghost var i :| 0 <= i < |w| && e in w[i];
      ghost var k := IndexOf(w[i], e);
      RemoveNeighbours(w[i], k);
      RemoveAndInit(e, w[i], k);
      RemoveKeeps(op, w, i, k);
  }

  method DoAlone(op: Op, ghost w: World)
    requires Partition(w) && Legal(op, w) && NextToItself(op)
    modifies Nodes(w), op.e
    ensures Partition(Apply(op, w))
  {
    ghost var i :| 0 <= i < |w| && op.l in w[i];
    OthersApart(w, op.e);
    Neighbours(w, i, 0);
    if op.Before? {
      InsertBefore(op.e, op.l, w[i], 0);
    } else {
      InsertAfter(op.e, op.l, w[i], 0);
    }
    assert Apply(op, w) == w;
  }

  method DoBefore(op: Op, ghost w: World)
    requires Partition(w) && Legal(op, w) && op.Before? && op.e != op.l
    modifies Nodes(w), op.e
    ensures Partition(Apply(op, w))
  {
    ghost var i :| 0 <= i < |w| && op.l in w[i];
    ghost var k := IndexOf(w[i], op.l);
    Neighbours(w, i, k);
    NotIn(w, op.e, i);
    InsertBefore(op.e, op.l, w[i], k);
    InsertKeeps(op, w, i, k);
  }

  method DoBehind(op: Op, ghost w: World)
    requires Partition(w) && Legal(op, w) && op.Behind? && op.e != op.l
    modifies Nodes(w), op.e
    ensures Partition(Apply(op, w))
  {
    ghost var i :| 0 <= i < |w| && op.l in w[i];
    ghost var k := IndexOf(w[i], op.l);
    Neighbours(w, i, k);
    NotIn(w, op.e, i);
    InsertAfter(op.e, op.l, w[i], k);
    InsertKeeps(op, w, i, k + 1);
  }

  lemma Neighbours(w: World, i: nat, k: nat)
    requires Partition(w) && i < |w| && k < |w[i]|
    ensures w[i][k].prev in w[i] && w[i][k].next in w[i]
    ensures w[i][k].prev in Nodes(w) && w[i][k].next in Nodes(w)
    ensures forall j | 0 <= j < |w| && j != i ::
              w[i][k] !in w[j] && w[i][k].prev !in w[j] && w[i][k].next !in w[j]
  {
    RemoveNeighbours(w[i], k);
  }

  lemma NotIn(w: World, e: Link, i: nat)
    requires Detached(w, e) && i < |w| && exists l :: l in w[i] && l != e
    ensures e !in w[i]
  {
  }

  lemma OthersApart(w: World, e: Link)
    requires Detached(w, e)
    ensures forall j | 0 <= j < |w| && w[j] != [e] :: e !in w[j]
  {
  }

  lemma InitKeeps(op: Op, w: World)
    requires op.InitNode? && Apart(w) && Detached(w, op.e) && IsRing([op.e])
    requires forall j | 0 <= j < |w| && w[j] != [op.e] :: IsRing(w[j])
    ensures Partition(Apply(op, w))
  {
    var w' := Apply(op, w);
    forall j | 0 <= j < |w|
      ensures w'[j] == (if w[j] == [op.e] then [] else w[j]) && op.e !in w'[j]
    {
    }
  }

  /** Rings other than the one inserted into are as they were, or have lost their only node. */
  lemma InsertKeeps(op: Op, w: World, i: nat, k: nat)
    requires op.Before? || op.Behind?
    requires Apart(w) && Detached(w, op.e) && op.e != op.l && i < |w| && op.l in w[i] && k <= |w[i]|
    requires k == if op.Before? then IndexOf(w[i], op.l) else IndexOf(w[i], op.l) + 1
    requires IsRing(InsertAt(w[i], k, op.e))
    requires forall j | 0 <= j < |w| && j != i && w[j] != [op.e] :: IsRing(w[j])
    ensures Partition(Apply(op, w))
  {
    var w' := Apply(op, w);
    forall j | 0 <= j < |w| && j != i
      ensures w'[j] == (if w[j] == [op.e] then [] else w[j]) && op.e !in w'[j]
    {
      assert w[i][IndexOf(w[i], op.l)] !in w[j];
    }
    InsertedApart(w, w', op.e, i, k);
    forall j | 0 <= j < |w'| && j != i
      ensures IsRing(w'[j])
    {
      assert w'[j] == [] || (w'[j] == w[j] && w[j] != [op.e]);
    }
  }

  lemma InsertedApart(w: World, w': World, e: Link, i: nat, k: nat)
    requires Apart(w) && |w'| == |w| && i < |w| && k <= |w[i]| && w'[i] == InsertAt(w[i], k, e)
    requires forall j | 0 <= j < |w| && j != i :: w'[j] == (if w[j] == [e] then [] else w[j]) && e !in w'[j]
    ensures Apart(w')
  {
    forall x | x in w'[i] && x != e
      ensures x in w[i]
    {
    }
  }

  lemma RemoveKeeps(op: Op, w: World, i: nat, k: nat)
    requires op.RemoveInit? && Apart(w) && i < |w| && op.e in w[i] && k == IndexOf(w[i], op.e)
    requires Distinct(w[i]) && IsRing(RemoveAt(w[i], k)) && IsRing([op.e])
    requires forall j | 0 <= j < |w| && j != i :: IsRing(w[j])
    ensures Partition(Apply(op, w))
  {
    var w' := Apply(op, w);
    NotThere(w[i], k);
    forall j | 0 <= j < |w| && j != i
      ensures op.e !in w[j]
    {
      assert w[i][k] !in w[j];
    }
    assert forall j | 0 <= j < |w| && j != i :: w'[j] == w[j];
    RemovedApart(w, w', i, k);
  }

  lemma RemovedApart(w: World, w': World, i: nat, k: nat)
    requires Apart(w) && i < |w| && k < |w[i]| && |w'| == |w| + 1
    requires w'[i] == RemoveAt(w[i], k) && w[i][k] !in w'[i] && w'[|w|] == [w[i][k]]
    requires forall j | 0 <= j < |w| && j != i :: w'[j] == w[j]
    ensures Apart(w')
  {
    forall m | 0 <= m < |w'[i]|
      ensures w'[i][m] in w[i]
    {
      assert w'[i][m] == w[i][if m < k then m else m + 1];
    }
  }

  /** Every run of legal operations keeps the nodes partitioned into circular lists. */
  method Run(ops: seq<Op>, ghost w: World)
    requires Partition(w) && LegalRun(ops, w)
    modifies Nodes(w), Touched(ops)
    ensures Partition(ApplyAll(ops, w))
  {
    ghost var now := w;
    var i := 0;
    while i < |ops|
      invariant 0 <= i <= |ops|
      invariant Partition(now) && LegalRun(ops[i..], now)
      invariant Nodes(now) <= Nodes(w) + Touched(ops)
      invariant ApplyAll(ops[i..], now) == ApplyAll(ops, w)
    {
      assert ops[i..][1..] == ops[i + 1..] && ops[i..][0] == ops[i];
      NodesKept(ops[i], now);
      Do(ops[i], now);
      now := Apply(ops[i], now);
      i := i + 1;
    }
  }

  // ---------------------------------------------------------- laws of the meaning

  /** No operation loses a node, and none but its own appears. */
  lemma NodesKept(op: Op, w: World)
    requires Legal(op, w)
    ensures Nodes(Apply(op, w)) == Nodes(w) + {op.e}
  {
    var nodes, nodes' := Nodes(w), Nodes(Apply(op, w));
    ESomewhere(op, w);
    forall x | x != op.e
      ensures x in nodes' <==> x in nodes
    {
      NodeKept(op, w, x);
    }
    SameBut(nodes', nodes, op.e);
  }

  lemma SameBut(a: set<Link>, b: set<Link>, e: Link)
    requires e in a && forall x | x != e :: x in a <==> x in b
    ensures a == b + {e}
  {
  }

  lemma NodeKept(op: Op, w: World, x: Link)
    requires x != op.e
    ensures x in Nodes(Apply(op, w)) <==> x in Nodes(w)
  {
    var w' := Apply(op, w);
    if x in Nodes(w') {
      var i, k :| 0 <= i < |w'| && 0 <= k < |w'[i]| && w'[i][k] == x;
      assert i < |w| && x in ApplyToRing(op, w[i]);
      ApplyMembers(op, w[i], x);
      var m :| 0 <= m < |w[i]| && w[i][m] == x;
    }
    if x in Nodes(w) {
      var i, k :| 0 <= i < |w| && 0 <= k < |w[i]| && w[i][k] == x;
      ApplyMembers(op, w[i], x);
      var m :| 0 <= m < |w'[i]| && w'[i][m] == x;
    }
  }

  lemma ApplyMembers(op: Op, r: seq<Link>, x: Link)
    requires x != op.e
    ensures x in ApplyToRing(op, r) <==> x in r
  {
    var r' := ApplyToRing(op, r);
    if op.RemoveInit? && op.e in r {
      var k := IndexOf(r, op.e);
      if x in r {
        StillThere(r, k, x);
      }
    }
  }

  lemma ESomewhere(op: Op, w: World)
    requires Legal(op, w)
    ensures op.e in Nodes(Apply(op, w))
  {
    var w' := Apply(op, w);
    if op.InitNode? || op.RemoveInit? {
      assert w'[|w|][0] == op.e;
    } else {
      var i :| 0 <= i < |w| && op.l in w[i];
      var k := IndexOf(w[i], op.l);
      assert w'[i][if op.Before? || op.e == op.l then k else k + 1] == op.e;
    }
  }

  /** Removing a node undoes its insertion, in every ring. */
  lemma RemoveUndoesInsert(r: seq<Link>, e: Link, l: Link)
    requires Distinct(r) && e !in r && l in r
    ensures ApplyToRing(RemoveInit(e), ApplyToRing(Before(e, l), r)) == r
    ensures ApplyToRing(RemoveInit(e), ApplyToRing(Behind(e, l), r)) == r
  {
    assert r != [e];
    assert InsertAt(r, IndexOf(r, l), e) != [] && InsertAt(r, IndexOf(r, l) + 1, e) != [];
    InsertedIndex(r, IndexOf(r, l), e);
    InsertedIndex(r, IndexOf(r, l) + 1, e);
  }

  lemma InsertedIndex(r: seq<Link>, k: nat, e: Link)
    requires e !in r && k <= |r|
    ensures e in InsertAt(r, k, e) && IndexOf(InsertAt(r, k, e), e) == k
    ensures RemoveAt(InsertAt(r, k, e), k) == r
  {
    var r' := InsertAt(r, k, e);
    assert r'[k] == e;
    forall i | 0 <= i < |r'| && i != k
      ensures r'[i] != e
    {
      assert r'[i] == r[if i < k then i else i - 1];
    }
  }
}
