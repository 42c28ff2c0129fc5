/**
  The B+-tree nodes of src/include/btree.h on the heap: fixed buffers, counts and pointers, changed in
  place. A `Layout` names the nodes of a tree; `Rep` says which tree value they hold, and
  `Chained` where their `next` pointers go.
 */
module BTreeHeap {
  import opened Records
  import opened BTreeModel

  class BtNode {
    var leaf: bool
    var length: nat
    const records: array<Record>
    const children: array<BtNode?>
    var next: BtNode?

    /** create_bt_node, and the allocation in bt_split_child. */
    constructor (leaf: bool)
      ensures this.leaf == leaf && length == 0 && next == null
      ensures fresh(records) && fresh(children)
      ensures records.Length == NODE_SIZE && children.Length == NODE_SIZE
    {
      this.leaf, length, next := leaf, 0, null;
      records := new Record[NODE_SIZE](i => Record(0, 0));
      children := new BtNode?[NODE_SIZE](i => null);
    }
  }

  datatype Layout = Layout(node: BtNode, kids: seq<Layout>)

  ghost function Own(n: BtNode): set<object> {
    {n, n.records, n.children}
  }

  ghost function Objs(l: Layout): set<object>
    decreases l, 1
  {
    Own(l.node) + AllObjs(l.kids)
  }

  ghost function AllObjs(ls: seq<Layout>): set<object>
    decreases ls, 0
  {
    set k, o | 0 <= k < |ls| && o in Objs(ls[k]) :: o
  }

  /** No node or buffer of the layout is used twice. */
  ghost predicate Separate(l: Layout)
    decreases l, 1
  {
    Own(l.node) !! AllObjs(l.kids) && AllSeparate(l.kids)
  }

  ghost predicate AllSeparate(ls: seq<Layout>)
    decreases ls, 0
  {
    ls == [] || (Separate(ls[0]) && Objs(ls[0]) !! AllObjs(ls[1..]) && AllSeparate(ls[1..]))
  }

  ghost predicate Buffers(n: BtNode) {
    n.records.Length == NODE_SIZE && n.children.Length == NODE_SIZE
  }

  /** Entry `k` of the children buffer points to the root of `kid`. */
  ghost predicate ChildIs(n: BtNode, k: nat, kid: Layout)
    requires Buffers(n) && k < NODE_SIZE
    reads n.children
  {
    n.children[k] == kid.node
  }

  /** The node `l.node` alone: its count, its separators and the nodes its children point to. */
  ghost predicate Holds(l: Layout, t: Tree)
    reads Own(l.node)
  {
    && Buffers(l.node)
    && l.node.length == |t.recs| <= NODE_SIZE
    && l.node.records[..l.node.length] == t.recs
    && l.node.leaf == t.Leaf?
    && (t.Leaf? ==> l.kids == [])
    && (t.Node? ==>
          && |l.kids| == |t.kids| == |t.recs|
          && forall k {:trigger ChildIs(l.node, k, l.kids[k])} :: 0 <= k < |l.kids| ==> ChildIs(l.node, k, l.kids[k]))
  }

  /** The nodes of `l` hold the tree `t`. */
  ghost predicate Rep(l: Layout, t: Tree)
    reads Objs(l)
    decreases l, 1
  {
    Holds(l, t) && (t.Node? ==> AllRep(l.kids, t.kids))
  }

  ghost predicate AllRep(ls: seq<Layout>, ts: seq<Tree>)
    reads AllObjs(ls)
    decreases ls, 1
  {
    |ls| == |ts| && forall k :: 0 <= k < |ls| ==> RepAt(ls, ts, k)
  }

  ghost predicate RepAt(ls: seq<Layout>, ts: seq<Tree>, k: nat)
    requires k < |ls| == |ts|
    reads Objs(ls[k])
    decreases ls, 0
  {
    Rep(ls[k], ts[k])
  }

  /** The leftmost node of every level, top down. */
  ghost function Spine(l: Layout): seq<BtNode?> {
    [l.node] + if l.kids == [] then [] else Spine(l.kids[0])
  }

  /** Where the chains to the left of `ls` arrive: at `ls` if there is one, else beyond it. */
  ghost function Heads(ls: seq<Layout>, outs: seq<BtNode?>): seq<BtNode?> {
    if ls == [] then outs else Spine(ls[0])
  }

  /** On every level the `next` pointers link the nodes of `l` left to right and leave to `outs`. */
  ghost predicate Chained(l: Layout, outs: seq<BtNode?>)
    reads Objs(l)
    decreases l, 1
  {
    outs != [] && l.node.next == outs[0] && AllChained(l.kids, outs[1..])
  }

  ghost predicate AllChained(ls: seq<Layout>, outs: seq<BtNode?>)
    reads AllObjs(ls)
    decreases ls, 1
  {
    forall k :: 0 <= k < |ls| ==> ChainedAt(ls, outs, k)
  }

  ghost predicate ChainedAt(ls: seq<Layout>, outs: seq<BtNode?>, k: nat)
    requires k < |ls|
    reads Objs(ls[k])
    decreases ls, 0
  {
    Chained(ls[k], if k + 1 < |ls| then Spine(ls[k + 1]) else outs)
  }

  /** A well-formed piece of the heap: the nodes of `l`, each used once, hold `t`, and their chains leave to `outs`. */
  ghost predicate Stands(l: Layout, t: Tree, outs: seq<BtNode?>)
    reads Objs(l)
  {
    Rep(l, t) && Separate(l) && Chained(l, outs)
  }

  // ---------- Concatenations ----------

  lemma ObjsConcat(a: seq<Layout>, b: seq<Layout>)
    ensures AllObjs(a + b) == AllObjs(a) + AllObjs(b)
  {
    assert forall k :: 0 <= k < |a| ==> (a + b)[k] == a[k];
    assert forall k :: 0 <= k < |b| ==> (a + b)[|a| + k] == b[k];
    assert forall k :: |a| <= k < |a + b| ==> (a + b)[k] == b[k - |a|];
  }

  lemma {:induction false} SeparateConcat(a: seq<Layout>, b: seq<Layout>)
    ensures AllSeparate(a + b) <==> AllSeparate(a) && AllSeparate(b) && AllObjs(a) !! AllObjs(b)
  {
    if a == [] {
      assert a + b == b;
    } else {
      assert (a + b)[1..] == a[1..] + b && a == [a[0]] + a[1..];
      SeparateConcat(a[1..], b);
      ObjsConcat(a[1..], b);
      ObjsConcat([a[0]], a[1..]);
      assert AllObjs([a[0]]) == Objs(a[0]);
    }
  }

  lemma RepConcat(a: seq<Layout>, b: seq<Layout>, ta: seq<Tree>, tb: seq<Tree>)
    requires |a| == |ta|
    ensures AllRep(a + b, ta + tb) <==> AllRep(a, ta) && AllRep(b, tb)
  {
    var s, t := a + b, ta + tb;
    if |b| == |tb| {
      assert forall k :: 0 <= k < |a| ==> (RepAt(s, t, k) <==> RepAt(a, ta, k));
      assert forall k :: 0 <= k < |b| ==> (RepAt(s, t, |a| + k) <==> RepAt(b, tb, k));
      assert forall k :: |a| <= k < |s| ==> (RepAt(s, t, k) <==> RepAt(b, tb, k - |a|));
    }
  }

  lemma ChainedConcat(a: seq<Layout>, b: seq<Layout>, outs: seq<BtNode?>)
    ensures AllChained(a + b, outs) <==> AllChained(a, Heads(b, outs)) && AllChained(b, outs)
  {
    var s := a + b;
    assert forall k :: 0 <= k < |a| ==> (ChainedAt(s, outs, k) <==> ChainedAt(a, Heads(b, outs), k));
    assert forall k :: 0 <= k < |b| ==> (ChainedAt(s, outs, |a| + k) <==> ChainedAt(b, outs, k));
    assert forall k :: |a| <= k < |s| ==> (ChainedAt(s, outs, k) <==> ChainedAt(b, outs, k - |a|));
  }

  /** The objects of a layout exist: a node allocated later is none of them. */
  lemma {:induction false} ObjsAllocated(l: Layout)
    ensures forall o :: o in Objs(l) ==> allocated(o)
    decreases l, 1
  {
    AllObjsAllocated(l.kids);
  }

  lemma {:induction false} AllObjsAllocated(ls: seq<Layout>)
    ensures forall o :: o in AllObjs(ls) ==> allocated(o)
    decreases ls, 0
  {
    forall k | 0 <= k < |ls| ensures forall o :: o in Objs(ls[k]) ==> allocated(o) {
      ObjsAllocated(ls[k]);
    }
  }

  ghost predicate IsPart(o: object) {
    o is BtNode || o is array<Record> || o is array<BtNode?>
  }

  /** A layout has no other objects than nodes and their buffers. */
  lemma {:induction false} ObjsKinds(l: Layout)
    ensures forall o :: o in Objs(l) ==> IsPart(o)
    decreases l
  {
    forall k | 0 <= k < |l.kids| ensures forall o :: o in Objs(l.kids[k]) ==> IsPart(o) {
      ObjsKinds(l.kids[k]);
    }
    forall o | o in Own(l.node) ensures IsPart(o) {
      assert o == l.node || o == l.node.records || o == l.node.children;
    }
  }

  lemma Single(x: Layout)
    ensures AllObjs([x]) == Objs(x) && (AllSeparate([x]) <==> Separate(x))
  {
    assert [x][1..] == [] && [x][0] == x;
  }

  lemma SingleRep(x: Layout, t: Tree)
    ensures AllRep([x], [t]) <==> Rep(x, t)
  {
    assert RepAt([x], [t], 0) <==> Rep(x, t);
  }

  lemma SingleChained(x: Layout, outs: seq<BtNode?>)
    ensures AllChained([x], outs) <==> Chained(x, outs)
  {
    assert ChainedAt([x], outs, 0) <==> Chained(x, outs);
  }

  lemma Pair(x: Layout, y: Layout)
    ensures AllObjs([x, y]) == Objs(x) + Objs(y)
    ensures AllSeparate([x, y]) <==> Separate(x) && Separate(y) && Objs(x) !! Objs(y)
  {
    assert [x, y] == [x] + [y];
    Single(x);
    Single(y);
    ObjsConcat([x], [y]);
    SeparateConcat([x], [y]);
  }

  // The same for three parts: what stands before, in, and after a place.

  lemma ObjsParts(a: seq<Layout>, m: seq<Layout>, b: seq<Layout>)
    ensures AllObjs(a + m + b) == AllObjs(a) + AllObjs(m) + AllObjs(b)
  {
    ObjsConcat(a + m, b);
    ObjsConcat(a, m);
  }

  lemma SeparateParts(a: seq<Layout>, m: seq<Layout>, b: seq<Layout>)
    ensures AllSeparate(a + m + b) <==>
              && AllSeparate(a) && AllSeparate(m) && AllSeparate(b)
              && AllObjs(a) !! AllObjs(m) && AllObjs(a) !! AllObjs(b) && AllObjs(m) !! AllObjs(b)
  {
    SeparateConcat(a + m, b);
    SeparateConcat(a, m);
    ObjsConcat(a, m);
  }

  lemma RepParts(a: seq<Layout>, m: seq<Layout>, b: seq<Layout>, ta: seq<Tree>, tm: seq<Tree>, tb: seq<Tree>)
    requires |a| == |ta| && |m| == |tm|
    ensures AllRep(a + m + b, ta + tm + tb) <==> AllRep(a, ta) && AllRep(m, tm) && AllRep(b, tb)
  {
    RepConcat(a + m, b, ta + tm, tb);
    RepConcat(a, m, ta, tm);
  }

  lemma ChainedParts(a: seq<Layout>, m: seq<Layout>, b: seq<Layout>, outs: seq<BtNode?>)
    requires m != []
    ensures AllChained(a + m + b, outs) <==>
              AllChained(a, Spine(m[0])) && AllChained(m, Heads(b, outs)) && AllChained(b, outs)
  {
    ChainedConcat(a + m, b, outs);
    ChainedConcat(a, m, Heads(b, outs));
  }

  lemma KidWithin(l: Layout, k: nat)
    requires k < |l.kids|
    ensures Objs(l.kids[k]) <= Objs(l)
  {
    assert l.kids == l.kids[..k] + [l.kids[k]] + l.kids[k + 1..];
    ObjsParts(l.kids[..k], [l.kids[k]], l.kids[k + 1..]);
    Single(l.kids[k]);
  }

  // ---------- Inside one node ----------

  lemma ChildHere(x: BtNode, j: nat, l: Layout, t: Tree)
    requires l.node == x && Holds(l, t) && t.Node? && j < |t.kids|
    ensures x.children[j] == l.kids[j].node
  {
    assert ChildIs(x, j, l.kids[j]);
  }

  /** bt_search_inner. */
  method SearchInner(node: BtNode, d: int) returns (i: nat)
    requires node.length <= node.records.Length
    ensures i == UpperIndex(node.records[..node.length], d)
  {
    i := 0;
    while i < node.length && node.records[i].val <= d
      invariant i <= node.length
      invariant UpperIndex(node.records[..node.length], d) == UpperFrom(node.records[..node.length], d, i)
    {
      i := i + 1;
    }
  }

  /** bt_make_room. */
  method MakeRoom(node: BtNode, i: nat)
    requires Buffers(node) && (node.length <= i || node.length < NODE_SIZE)
    modifies node.records, node.children
    ensures forall k :: 0 <= k < i && k < NODE_SIZE ==> node.records[k] == old(node.records[k])
    ensures forall k :: i <= k < node.length ==> node.records[k + 1] == old(node.records[k])
    ensures node.leaf ==> node.children[..] == old(node.children[..])
    ensures !node.leaf ==> forall k :: 0 <= k < i && k < NODE_SIZE ==> node.children[k] == old(node.children[k])
    ensures !node.leaf ==> forall k :: i <= k < node.length ==> node.children[k + 1] == old(node.children[k])
  {
    if i < node.length {
      forall k | i <= k < node.length { node.records[k + 1] := node.records[k]; }
      if !node.leaf {
        forall k | i <= k < node.length { node.children[k + 1] := node.children[k]; }
      }
    }
  }

  /** memcpy of `n` entries from `src[from]` on to the start of `dst`. */
  method CopyEntries<T>(dst: array<T>, src: array<T>, from: nat, n: nat)
    requires dst != src && from + n <= src.Length && n <= dst.Length
    modifies dst
    ensures dst[..n] == src[from..from + n]
  {
    forall k | 0 <= k < n { dst[k] := src[from + k]; }
  }

  /** The allocation and the two copies of bt_split_child: a node holding the entries from `median` on. */
  method CopyUpper(node: BtNode, median: nat) returns (right: BtNode)
    requires Buffers(node) && median <= node.length <= NODE_SIZE
    ensures fresh(Own(right)) && Buffers(right) && right.leaf == node.leaf
    ensures right.length == node.length - median
    ensures right.records[..right.length] == node.records[median..node.length]
    ensures !node.leaf ==> right.children[..right.length] == node.children[median..node.length]
  {
    right := new BtNode(node.leaf);
    right.length := node.length - median;
    CopyEntries(right.records, node.records, median, right.length);
    if !node.leaf {
      CopyEntries(right.children, node.children, median, right.length);
    }
  }

  /** bt_split_child: the upper half of `node` moves to a new right neighbour, which becomes entry `i` of `parent`. */
  method SplitNode(parent: BtNode, node: BtNode, i: nat) returns (right: BtNode)
    requires Buffers(parent) && Buffers(node) && Own(parent) !! Own(node)
    requires 2 <= node.length <= NODE_SIZE && parent.length < NODE_SIZE && i < NODE_SIZE && !parent.leaf
    modifies parent`length, parent.records, parent.children, node`length, node`next
    ensures fresh(Own(right)) && Buffers(right) && right.leaf == node.leaf
    ensures node.length == old(node.length) / 2 && right.length == old(node.length) - node.length
    ensures right.records[..right.length] == node.records[node.length..old(node.length)]
    ensures !node.leaf ==> right.children[..right.length] == node.children[node.length..old(node.length)]
    ensures right.next == old(node.next) && node.next == right
    ensures parent.length == old(parent.length) + 1
    ensures parent.records[i] == right.records[0] && parent.children[i] == right
    ensures forall k :: 0 <= k < i ==> parent.records[k] == old(parent.records[k])
    ensures forall k :: 0 <= k < i ==> parent.children[k] == old(parent.children[k])
    ensures forall k :: i <= k < old(parent.length) ==> parent.records[k + 1] == old(parent.records[k])
    ensures forall k :: i <= k < old(parent.length) ==> parent.children[k + 1] == old(parent.children[k])
  {
    var median := node.length / 2;
    right := CopyUpper(node, median);
    node.length := median;
    right.next := node.next;
    node.next := right;

    MakeRoom(parent, i);
    parent.children[i] := right;
    parent.records[i] := right.records[0];
    parent.length := parent.length + 1;
  }
}
