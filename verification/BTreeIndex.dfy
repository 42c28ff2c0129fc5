/** The B+-tree index: a root pointer that insertions may replace, and the nodes below it. */
module BTreeIndex {
  import opened Records
  import opened BTreeModel
  import opened BTreeOrder
  import opened BTreeHeap
  import opened BTreeSplit
  import opened BTreeInsert

  /** The chain of every level ends in NULL. */
  ghost function Nulls(n: nat): (s: seq<BtNode?>)
    ensures |s| == n
  {
    if n == 0 then [] else [null] + Nulls(n - 1)
  }

  method AllocateRoot(child: BtNode) returns (n: BtNode)
    ensures fresh(Own(n)) && Buffers(n) && !n.leaf && n.length == 0 && n.next == null && n.children[0] == child
  {
    n := new BtNode(false);
    n.children[0] := child;
  }

  lemma FirstRecord(l: Layout, t: Tree)
    requires Holds(l, t) && t.recs != []
    ensures l.node.records[0] == t.recs[0]
  {
    assert l.node.records[0] == l.node.records[..l.node.length][0];
  }

  /** A node with two entries over both halves of `t`, each under its first record. */
  lemma RootHolds(n: BtNode, l: Layout, t: Tree, right: BtNode)
    requires Full(t) && (t.Node? ==> |t.kids| == |t.recs|)
    requires Buffers(n) && !n.leaf && n.length == 2 && n.children[0] == l.node && n.children[1] == right
    requires n.records[0] == LeftHalf(t).recs[0] && n.records[1] == RightHalf(t).recs[0]
    ensures Holds(Layout(n, [LeftPart(l), RightPart(l, right)]), NewRoot(t))
  {
    assert n.records[..n.length] == [n.records[0], n.records[1]];
  }

  /** The first separator of a new root is copied from its first child as it is now. */
  method CompleteRoot(n: BtNode, ghost first: Record)
    requires Buffers(n) && n.length == 1
    requires n.children[0] != null && Buffers(n.children[0]) && n.children[0].records[0] == first
    modifies n.records, n`length
    ensures n.length == 2 && n.records[0] == first && n.records[1] == old(n.records[1])
  {
    n.records[0] := n.children[0].records[0];
    n.length := n.length + 1;
  }

  /** The split of a full root and both entries of the root above it. */
  method CutRoot(n: BtNode, root: BtNode, ghost l: Layout, ghost t: Tree) returns (right: BtNode)
    requires l.node == root && Full(t) && Holds(l, t)
    requires Buffers(n) && !n.leaf && n.length == 0 && n.children[0] == root && Own(n) !! Own(root)
    modifies n`length, n.records, n.children, root`length, root`next
    ensures fresh(Own(right)) && root.next == right && right.next == old(root.next)
    ensures Holds(Layout(n, [LeftPart(l), RightPart(l, right)]), NewRoot(t))
    ensures Holds(LeftPart(l), LeftHalf(t)) && Holds(RightPart(l, right), RightHalf(t))
  {
    assert t.Node? ==> forall k :: 0 <= k < |t.recs| ==> ChildIs(root, k, l.kids[k]);
    right := SplitNode(n, root, 1);
    assert Cut(l, t, right);
    HalvesHold(l, t, right);
    FirstRecord(LeftPart(l), LeftHalf(t));
    FirstRecord(RightPart(l, right), RightHalf(t));
    CompleteRoot(n, LeftHalf(t).recs[0]);
    RootHolds(n, l, t, right);
    HalvesHold(l, t, right);
  }

  /** The split of the old root under the new one. */
  method SplitRoot(n: BtNode, root: BtNode, ghost l: Layout, ghost t: Tree, ghost h: nat) returns (right: BtNode)
    requires l.node == root && Stands(l, t, Nulls(h + 1)) && Body(t, h) && Full(t)
    requires Buffers(n) && !n.leaf && n.length == 0 && n.children[0] == root && Own(n) !! Objs(l)
    modifies Own(n), Own(root)
    ensures fresh(Own(right)) && n.next == old(n.next)
    ensures Holds(Layout(n, [LeftPart(l), RightPart(l, right)]), NewRoot(t))
    ensures Holds(LeftPart(l), LeftHalf(t)) && Holds(RightPart(l, right), RightHalf(t))
    ensures BelowStands(l, t, Nulls(h + 1)) && l.node.next == right && right.next == null
  {
    ObjsAllocated(l);
    assert BelowStands(l, t, Nulls(h + 1));
    right := CutRoot(n, root, l, t);
    assert BelowStands(l, t, Nulls(h + 1));
  }

  /** The first half of bt_insert on a full root: a new root above its two halves. */
  method GrowRoot(root: BtNode, ghost l: Layout, ghost t: Tree, ghost h: nat)
    returns (newRoot: BtNode, ghost l': Layout, ghost added: set<object>)
    requires l.node == root && Stands(l, t, Nulls(h + 1)) && Body(t, h) && Full(t)
    modifies Objs(l)
    ensures Stands(l', NewRoot(t), Nulls(h + 2)) && l'.node == newRoot && |l'.kids| == 2
    ensures Objs(l') == Objs(l) + added && fresh(added)
  {
    ObjsAllocated(l);
    newRoot := AllocateRoot(root);
    var right := SplitRoot(newRoot, root, l, t, h);
    l', added := Layout(newRoot, [LeftPart(l), RightPart(l, right)]), Own(newRoot) + Own(right);
    RootStands(newRoot, l, t, h, right);
  }

  /** What stands below a node and is not touched by its split. */
  ghost predicate BelowStands(l: Layout, t: Tree, outs: seq<BtNode?>)
    requires outs != []
    reads AllObjs(l.kids)
  {
    (t.Node? ==> AllRep(l.kids, t.kids)) && AllChained(l.kids, outs[1..])
  }

  /** A new root over both halves of a split node stands, and the chain of its own level ends in NULL. */
  lemma RootStands(top: BtNode, l: Layout, t: Tree, h: nat, right: BtNode)
    requires Body(t, h) && Full(t) && (t.Node? ==> |l.kids| == |t.kids|) && (t.Leaf? ==> l.kids == [])
    requires Holds(Layout(top, [LeftPart(l), RightPart(l, right)]), NewRoot(t)) && top.next == null
    requires Holds(LeftPart(l), LeftHalf(t)) && Holds(RightPart(l, right), RightHalf(t))
    requires BelowStands(l, t, Nulls(h + 1)) && l.node.next == right && right.next == null
    requires Separate(l) && Own(top) !! Objs(l) && Own(right) !! Objs(l) && Own(top) !! Own(right)
    ensures var l' := Layout(top, [LeftPart(l), RightPart(l, right)]);
            Stands(l', NewRoot(t), Nulls(h + 2)) && Objs(l') == Objs(l) + (Own(top) + Own(right))
  {
    PartsRep(l, t, right);
    PartsChained(l, Nulls(h + 1), right);
    PartsSeparate(l, right);
  }

  lemma NewRootShape(t: Tree, h: nat)
    requires Body(t, h) && Full(t)
    ensures t.Node? ==> |t.kids| == |t.recs|
    ensures Body(NewRoot(t), h + 1) && forall k :: 0 <= k < 2 ==> RoomAt(NewRoot(t), h, k)
  {
    HalvesShape(t, h);
    assert RoomAt(NewRoot(t), h, 0) && RoomAt(NewRoot(t), h, 1);
  }

  /** Child `k` can take one more record. */
  ghost predicate RoomAt(t: Tree, h: nat, k: nat)
    requires t.Node? && k < |t.kids|
  {
    Filled(t.kids[k], h) && !Full(t.kids[k])
  }

  lemma SecondRecord(l: Layout, t: Tree)
    requires Holds(l, t) && |t.recs| == 2
    ensures l.node.records[1] == t.recs[1]
  {
    assert l.node.records[1] == l.node.records[..l.node.length][1];
  }

  /** The second half of bt_insert on a full root: the record goes into one of the halves. */
  method InsertUnderNewRoot(root: BtNode, n: Record, ghost l: Layout, ghost t: Tree, ghost h: nat)
    returns (ghost l': Layout, ghost added: set<object>)
    requires Body(t, h) && Full(t)
    requires l.node == root && Stands(l, NewRoot(t), Nulls(h + 2)) && |l.kids| == 2
    modifies Objs(l)
    ensures Stands(l', InsertFull(t, n, h), Nulls(h + 2)) && l'.node == root
    ensures Objs(l') == Objs(l) + added && fresh(added)
  {
    SecondRecord(l, NewRoot(t));
    var i := 0;
    if root.records[i + 1].val < n.val {
      i := i + 1;
    }
    ChildHere(root, i, l, NewRoot(t));
    KidWithin(l, i);
    l', added := InsertIntoHalf(root.children[i], n, l, t, h, i);
  }

  /** The recursive call on the half `y`. */
  method InsertIntoHalf(y: BtNode, n: Record, ghost l: Layout, ghost t: Tree, ghost h: nat, ghost i: nat)
    returns (ghost l': Layout, ghost added: set<object>)
    requires Body(t, h) && Full(t) && Stands(l, NewRoot(t), Nulls(h + 2)) && |l.kids| == 2
    requires i == (if NewRoot(t).recs[1].val < n.val then 1 else 0) && y == l.kids[i].node
    modifies Objs(l.kids[i])
    ensures Stands(l', InsertFull(t, n, h), Nulls(h + 2)) && l'.node == l.node
    ensures Objs(l') == Objs(l) + added && fresh(added)
  {
    NewRootShape(t, h);
    assert RoomAt(NewRoot(t), h, i);
    l', added := InsertIntoKid(y, n, l, NewRoot(t), i, h + 1, Nulls(h + 2));
    HalfGrown(l', t, n, h, i);
  }

  lemma HalfGrown(l: Layout, t: Tree, r: Record, h: nat, k: nat)
    requires Body(t, h) && Full(t) && (t.Node? ==> |t.kids| == |t.recs|)
    requires k == if NewRoot(t).recs[1].val < r.val then 1 else 0
    requires Body(NewRoot(t).kids[k], h) && !Full(NewRoot(t).kids[k])
    requires Stands(l, Node(NewRoot(t).recs, NewRoot(t).kids[k := InsertNonFull(NewRoot(t).kids[k], r, h)]),
                    Nulls(h + 2))
    ensures Stands(l, InsertFull(t, r, h), Nulls(h + 2))
  {
  }

  /** bt_insert on a full root. */
  method InsertIntoFull(root: BtNode, n: Record, ghost l: Layout, ghost t: Tree, ghost h: nat)
    returns (root': BtNode, ghost l': Layout, ghost added: set<object>)
    requires l.node == root && Stands(l, t, Nulls(h + 1)) && Body(t, h) && Full(t)
    modifies Objs(l)
    ensures Stands(l', InsertFull(t, n, h), Nulls(h + 2)) && l'.node == root'
    ensures Objs(l') == Objs(l) + added && fresh(added)
  {
    root', l', added := GrowRoot(root, l, t, h);
    ghost var more;
    l', more := InsertUnderNewRoot(root', n, l', t, h);
    added := added + more;
  }

  /** The nodes of `l` stand and hold the index `x`, every chain ending in NULL. */
  ghost predicate Holding(l: Layout, x: Index)
    reads Objs(l)
  {
    Stands(l, x.root, Nulls(x.level + 1))
  }

  lemma HoldingFull(l: Layout, x: Index, n: Record)
    requires Balanced(x) && Full(x.root) && Stands(l, InsertFull(x.root, n, x.level), Nulls(x.level + 2))
    ensures Holding(l, BTreeModel.Insert(x, n))
  {
  }

  lemma HoldingRoom(l: Layout, x: Index, n: Record)
    requires Balanced(x) && !Full(x.root) && Stands(l, InsertNonFull(x.root, n, x.level), Nulls(x.level + 1))
    ensures Holding(l, BTreeModel.Insert(x, n))
  {
  }

  /** bt_insert, from the old root pointer to the new one. */
  method InsertRecord(root: BtNode, n: Record, ghost l: Layout, ghost x: Index)
    returns (root': BtNode, ghost l': Layout, ghost added: set<object>)
    requires l.node == root && Holding(l, x) && Balanced(x)
    modifies Objs(l)
    ensures Holding(l', BTreeModel.Insert(x, n)) && l'.node == root'
    ensures Objs(l') == Objs(l) + added && fresh(added)
  {
    if root.length >= NODE_SIZE {
      root', l', added := InsertIntoFull(root, n, l, x.root, x.level);
      HoldingFull(l', x, n);
    } else {
      root' := root;
      l', added := InsertNode(root, n, l, x.root, x.level, Nulls(x.level + 1));
      HoldingRoom(l', x, n);
    }
  }

  class BTree {
    var root: BtNode
    ghost var layout: Layout
    ghost var index: Index

    ghost predicate Valid()
      reads this, Objs(layout)
    {
      && this !in Objs(layout)
      && layout.node == root
      && Holding(layout, index)
      && Invariant(index)
    }

    /** create_btree_index before its bulk insertion: an empty leaf. */
    constructor ()
      ensures Valid() && index == Index(Leaf([]), 0) && fresh(Objs(layout))
    {
      var leaf := new BtNode(true);
      root := leaf;
      layout := Layout(leaf, []);
      index := Index(Leaf([]), 0);
      new;
      BulkInvariant([], 0);
      assert Rep(layout, Leaf([]));
      assert Nulls(1) == [null] && Chained(layout, Nulls(1));
      assert Separate(layout);
    }

    /** A root pointer over nodes that already stand, as load_btree_index makes it. */
    constructor Over(root: BtNode, ghost layout: Layout, ghost index: Index)
      requires layout.node == root && Stands(layout, index.root, Nulls(index.level + 1)) && Invariant(index)
      ensures Valid() && this.layout == layout && this.index == index
    {
      ObjsAllocated(layout);
      this.root, this.layout, this.index := root, layout, index;
    }

    /** bt_insert. */
    method Insert(n: Record) returns (ghost added: set<object>)
      requires Valid()
      modifies this, Objs(layout)
      ensures Valid() && index == BTreeModel.Insert(old(index), n)
      ensures Objs(layout) == old(Objs(layout)) + added && fresh(added)
    {
      InsertKeeps(index, n);
      var newRoot;
      ghost var l';
      newRoot, l', added := InsertRecord(root, n, layout, index);
      root, layout, index := newRoot, l', BTreeModel.Insert(index, n);
    }
  }
}
