/**
  The B+-tree of src/btree.c as a value: what a node holds, and the functions that the
  insertion code computes on it, branch by branch. The heap code of module BTreeHeap is
  proved equal to these functions; what the tree promises is proved about them.
 */
module BTreeModel {
  import opened Records

  const NODE_SIZE: nat := 169
  const MIN_FILL: nat := NODE_SIZE / 2

  /** A node has as many separators as children: `recs[k]` stands for `kids[k]`. */
  datatype Tree = Leaf(recs: seq<Record>) | Node(recs: seq<Record>, kids: seq<Tree>)

  /** A tree and the number of internal levels above its leaves. */
  datatype Index = Index(root: Tree, level: nat)

  // ---------- Searches inside one node ----------

  /** The first position whose value is above `d` (where an insertion goes). */
  function UpperIndex(recs: seq<Record>, d: int): (i: nat)
    ensures i <= |recs|
    ensures forall k :: 0 <= k < i ==> recs[k].val <= d
    ensures i < |recs| ==> recs[i].val > d
  {
    UpperFrom(recs, d, 0)
  }

  function UpperFrom(recs: seq<Record>, d: int, from: nat): (i: nat)
    requires from <= |recs|
    ensures from <= i <= |recs|
    ensures forall k :: from <= k < i ==> recs[k].val <= d
    ensures i < |recs| ==> recs[i].val > d
    decreases |recs| - from
  {
    if from == |recs| || recs[from].val > d then from else UpperFrom(recs, d, from + 1)
  }

  /** The first position whose value is at least `d` (where a select descends). */
  function LowerIndex(recs: seq<Record>, d: int): (i: nat)
    ensures i <= |recs|
    ensures forall k :: 0 <= k < i ==> recs[k].val < d
    ensures i < |recs| ==> recs[i].val >= d
  {
    LowerFrom(recs, d, 0)
  }

  function LowerFrom(recs: seq<Record>, d: int, from: nat): (i: nat)
    requires from <= |recs|
    ensures from <= i <= |recs|
    ensures forall k :: from <= k < i ==> recs[k].val < d
    ensures i < |recs| ==> recs[i].val >= d
    decreases |recs| - from
  {
    if from == |recs| || recs[from].val >= d then from else LowerFrom(recs, d, from + 1)
  }

  // ---------- Shape: levels and occupancy ----------

  /** All leaves are `h` levels down, no node passes NODE_SIZE, and every node below `t` is half full. */
  ghost predicate Body(t: Tree, h: nat)
    decreases h, 0
  {
    && |t.recs| <= NODE_SIZE
    && (h == 0 ==> t.Leaf?)
    && (h > 0 ==>
          && t.Node? && 1 <= |t.recs| == |t.kids|
          && forall k {:trigger Filled(t.kids[k], h - 1)} :: 0 <= k < |t.kids| ==> Filled(t.kids[k], h - 1))
  }

  ghost predicate Filled(t: Tree, h: nat)
    decreases h, 1
  {
    Body(t, h) && MIN_FILL <= |t.recs|
  }

  // ---------- What the insertion code computes ----------

  function LeftHalf(t: Tree): Tree
    requires t.Node? ==> |t.kids| == |t.recs|
  {
    var m := |t.recs| / 2;
    if t.Leaf? then Leaf(t.recs[..m]) else Node(t.recs[..m], t.kids[..m])
  }

  function RightHalf(t: Tree): Tree
    requires t.Node? ==> |t.kids| == |t.recs|
  {
    var m := |t.recs| / 2;
    if t.Leaf? then Leaf(t.recs[m..]) else Node(t.recs[m..], t.kids[m..])
  }

  predicate Full(t: Tree) { |t.recs| >= NODE_SIZE }

  /** bt_split_child: child `i - 1` of `t` is cut in two and the upper half becomes child `i`. */
  function SplitChild(t: Tree, i: nat): Tree
    requires t.Node? && |t.recs| == |t.kids| && 1 <= i <= |t.kids|
    requires Full(t.kids[i - 1]) && (t.kids[i - 1].Node? ==> |t.kids[i - 1].kids| == |t.kids[i - 1].recs|)
  {
    var y := t.kids[i - 1];
    Node(InsertAt(t.recs, i, RightHalf(y).recs[0]),
         InsertAt(t.kids[i - 1 := LeftHalf(y)], i, RightHalf(y)))
  }

  lemma HalvesShape(t: Tree, h: nat)
    requires Body(t, h) && Full(t)
    ensures Filled(LeftHalf(t), h) && Filled(RightHalf(t), h)
    ensures !Full(LeftHalf(t)) && !Full(RightHalf(t))
  {
    assert t.Node? ==> forall k :: 0 <= k < |t.kids| ==> Filled(t.kids[k], h - 1);
    assert Body(LeftHalf(t), h);
    assert Body(RightHalf(t), h);
  }

  /** A full node has 169 entries and is cut after the first 84. */
  lemma HalvesSizes(t: Tree, h: nat)
    requires Body(t, h) && Full(t)
    ensures t.Node? ==> |t.kids| == 169
    ensures |t.recs| == 169 && LeftHalf(t).recs == t.recs[..84] && RightHalf(t).recs == t.recs[84..]
    ensures t.Node? ==> LeftHalf(t).kids == t.kids[..84] && RightHalf(t).kids == t.kids[84..]
  {
  }

  lemma SplitShape(t: Tree, i: nat, h: nat)
    requires h > 0 && Body(t, h) && !Full(t) && 1 <= i <= |t.kids| && Full(t.kids[i - 1])
    ensures t.kids[i - 1].Node? ==> |t.kids[i - 1].kids| == |t.kids[i - 1].recs|
    ensures var s := SplitChild(t, i);
            Body(s, h) && |s.recs| == |t.recs| + 1 && !Full(s.kids[i - 1]) && !Full(s.kids[i])
  {
    assert Filled(t.kids[i - 1], h - 1) && Body(t.kids[i - 1], h - 1);
    HalvesShape(t.kids[i - 1], h - 1);
    var s := SplitChild(t, i);
    forall k | 0 <= k < |s.kids| ensures Filled(s.kids[k], h - 1) {
      if k < i - 1 { assert s.kids[k] == t.kids[k]; } else if k > i { assert s.kids[k] == t.kids[k - 1]; }
    }
  }

  /** A node made ready for the descent, and the child that takes the record. */
  datatype Descent = Descent(node: Tree, child: nat)

  /**
    The part of bt_insert_non_full before its recursive call: a record below every separator
    replaces the first one, a full child is split, and one of its halves is chosen.
   */
  function Descend(t: Tree, r: Record, h: nat): (d: Descent)
    requires h > 0 && Body(t, h) && !Full(t)
    ensures Body(d.node, h) && d.child < |d.node.kids|
    ensures |t.recs| <= |d.node.recs| <= |t.recs| + 1
    ensures !Full(d.node.kids[d.child]) && Filled(d.node.kids[d.child], h - 1)
  {
    var i := UpperIndex(t.recs, r.val);
    var x := if i == 0 then Node(t.recs[0 := r], t.kids) else t;
    var j := if i == 0 then 0 else i - 1;
    assert Filled(t.kids[j], h - 1);
    Choose(x, r, j, h)
  }

  /** A full child `j` is split and one of its halves is chosen. */
  function Choose(x: Tree, r: Record, j: nat, h: nat): (d: Descent)
    requires h > 0 && Body(x, h) && !Full(x) && j < |x.kids|
    ensures Body(d.node, h) && d.child < |d.node.kids|
    ensures |x.recs| <= |d.node.recs| <= |x.recs| + 1
    ensures !Full(d.node.kids[d.child]) && Filled(d.node.kids[d.child], h - 1)
  {
    assert Filled(x.kids[j], h - 1);
    if Full(x.kids[j]) then
      SplitShape(x, j + 1, h);
      var s := SplitChild(x, j + 1);
      Descent(s, if s.recs[j + 1].val < r.val then j + 1 else j)
    else
      Descent(x, j)
  }

  /** bt_insert_non_full on a node `h` levels above the leaves. */
  function InsertNonFull(t: Tree, r: Record, h: nat): (t': Tree)
    requires Body(t, h) && !Full(t)
    ensures Body(t', h)
    ensures |t.recs| <= |t'.recs| <= |t.recs| + 1
    decreases h
  {
    if t.Leaf? then
      Leaf(InsertAt(t.recs, UpperIndex(t.recs, r.val), r))
    else
      var d := Descend(t, r, h);
      var c := InsertNonFull(d.node.kids[d.child], r, h - 1);
      ReplaceShape(d.node, d.child, c, h);
      Node(d.node.recs, d.node.kids[d.child := c])
  }

  lemma ReplaceShape(t: Tree, k: nat, c: Tree, h: nat)
    requires h > 0 && Body(t, h) && k < |t.kids| && Filled(c, h - 1)
    ensures Body(Node(t.recs, t.kids[k := c]), h)
  {
  }

  /** The node that bt_insert puts above a full root: both halves, each under its own first record. */
  function NewRoot(t: Tree): Tree
    requires Full(t) && (t.Node? ==> |t.kids| == |t.recs|)
  {
    Node([LeftHalf(t).recs[0], RightHalf(t).recs[0]], [LeftHalf(t), RightHalf(t)])
  }

  ghost predicate Balanced(x: Index) {
    Body(x.root, x.level) && (x.level > 0 ==> 2 <= |x.root.recs|)
  }

  /** bt_insert on a full root `h` levels above the leaves: the record goes into one half, under the new root. */
  function InsertFull(t: Tree, r: Record, h: nat): (t': Tree)
    requires Body(t, h) && Full(t)
    ensures Balanced(Index(t', h + 1)) && |t'.recs| == 2
  {
    HalvesShape(t, h);
    var top := NewRoot(t);
    var k := if top.recs[1].val < r.val then 1 else 0;
    var c := InsertNonFull(top.kids[k], r, h);
    assert Filled(c, h) && Filled(top.kids[1 - k], h);
    Node(top.recs, top.kids[k := c])
  }

  /** bt_insert. */
  function Insert(x: Index, r: Record): (x': Index)
    requires Balanced(x)
    ensures Balanced(x')
  {
    if Full(x.root) then Index(InsertFull(x.root, r, x.level), x.level + 1)
    else Index(InsertNonFull(x.root, r, x.level), x.level)
  }

  /** bt_insert_bulk of the first `n` values of a column into the tree `x`. */
  function BulkInto(x: Index, v: seq<int>, n: nat): (y: Index)
    requires Balanced(x) && n <= |v|
    ensures Balanced(y)
  {
    if n == 0 then x else Insert(BulkInto(x, v, n - 1), Record(n - 1, v[n - 1]))
  }

  /** The same, into a new tree. */
  function Bulk(v: seq<int>, n: nat): (x: Index)
    requires n <= |v|
    ensures Balanced(x)
  {
    BulkInto(Index(Leaf([]), 0), v, n)
  }

  // ---------- The records of a tree, left to right ----------

  function InOrder(t: Tree): seq<Record>
    decreases t, 1
  {
    if t.Leaf? then t.recs else Flat(t.kids)
  }

  function Flat(kids: seq<Tree>): seq<Record>
    decreases kids, 0
  {
    if kids == [] then [] else InOrder(kids[0]) + Flat(kids[1..])
  }
}
