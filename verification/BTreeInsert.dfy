/** bt_insert and its helpers on the heap: they compute the functions of BTreeModel and keep every chain. */
module BTreeInsert {
  import opened Records
  import opened BTreeModel
  import opened BTreeOrder
  import opened BTreeHeap
  import opened BTreeSplit

  /** An opened node without its child `k`: untouched by an insertion into that child. */
  ghost predicate SidesStand(l: Layout, t: Tree, k: nat, outs: seq<BtNode?>)
    requires t.Node? && k < |t.kids| == |l.kids|
    reads Own(l.node), AllObjs(l.kids[..k]), AllObjs(l.kids[k + 1..])
  {
    var a, b := l.kids[..k], l.kids[k + 1..];
    && Holds(l, t) && outs != [] && l.node.next == outs[0]
    && AllRep(a, t.kids[..k]) && AllRep(b, t.kids[k + 1..])
    && AllChained(a, Spine(l.kids[k])) && AllChained(b, outs[1..])
  }

  /** The layout of a node whose child `k` has become `c`. */
  ghost function WithKid(l: Layout, k: nat, c: Layout): Layout
    requires k < |l.kids|
  {
    Layout(l.node, l.kids[..k] + [c] + l.kids[k + 1..])
  }

  lemma CloseRep(l: Layout, t: Tree, k: nat, lc: Layout, c: Tree, outs: seq<BtNode?>)
    requires t.Node? && k < |t.kids| == |l.kids| && SidesStand(l, t, k, outs)
    requires lc.node == l.kids[k].node && Rep(lc, c)
    ensures Rep(WithKid(l, k, lc), Node(t.recs, t.kids[k := c]))
  {
    var a, b := l.kids[..k], l.kids[k + 1..];
    assert t.kids[k := c] == t.kids[..k] + [c] + t.kids[k + 1..];
    SingleRep(lc, c);
    RepParts(a, [lc], b, t.kids[..k], [c], t.kids[k + 1..]);
    var l' := WithKid(l, k, lc);
    forall j | 0 <= j < |l'.kids| ensures ChildIs(l.node, j, l'.kids[j]) {
      assert ChildIs(l.node, j, l.kids[j]);
    }
  }

  lemma CloseChained(l: Layout, t: Tree, k: nat, lc: Layout, outs: seq<BtNode?>)
    requires t.Node? && k < |t.kids| == |l.kids| && SidesStand(l, t, k, outs)
    requires Spine(lc) == Spine(l.kids[k]) && Chained(lc, Heads(l.kids[k + 1..], outs[1..]))
    ensures Chained(WithKid(l, k, lc), outs)
    ensures Spine(WithKid(l, k, lc)) == Spine(l)
  {
    var a, b := l.kids[..k], l.kids[k + 1..];
    SingleChained(lc, Heads(b, outs[1..]));
    ChainedParts(a, [lc], b, outs[1..]);
  }

  /** The grown child back in its place. */
  lemma CloseGrown(l: Layout, t: Tree, k: nat, lc: Layout, c: Tree, added: set<object>, outs: seq<BtNode?>)
    requires t.Node? && k < |t.kids| == |l.kids| && SidesStand(l, t, k, outs) && Around(l, k)
    requires lc.node == l.kids[k].node && Spine(lc) == Spine(l.kids[k])
    requires Stands(lc, c, Heads(l.kids[k + 1..], outs[1..]))
    requires Objs(lc) == Objs(l.kids[k]) + added && added !! Objs(l)
    ensures Stands(WithKid(l, k, lc), Node(t.recs, t.kids[k := c]), outs)
    ensures Spine(WithKid(l, k, lc)) == Spine(l) && Objs(WithKid(l, k, lc)) == Objs(l) + added
  {
    Single(lc);
    PlaceSeparate(l, k, [lc], added);
    CloseRep(l, t, k, lc, c, outs);
    CloseChained(l, t, k, lc, outs);
  }

  // ---------- The methods ----------

  /** Shift the records from `i` on and put `n` there. */
  method PutRecord(x: BtNode, i: nat, n: Record, ghost recs: seq<Record>)
    requires Buffers(x) && i <= x.length == |recs| < NODE_SIZE && x.leaf
    requires forall k :: 0 <= k < |recs| ==> x.records[k] == recs[k]
    modifies x`length, x.records, x.children
    ensures x.length == |recs| + 1 && x.records[..x.length] == InsertAt(recs, i, n)
  {
    MakeRoom(x, i);
    x.records[i] := n;
    x.length := x.length + 1;
    forall k | 0 <= k < x.length ensures x.records[k] == InsertAt(recs, i, n)[k] {
      if k > i { assert x.records[(k - 1) + 1] == recs[k - 1]; }
    }
  }

  /** The leaf case of bt_insert_non_full. */
  method InsertIntoLeaf(x: BtNode, n: Record, ghost l: Layout, ghost t: Tree, ghost outs: seq<BtNode?>)
    requires l.node == x && Stands(l, t, outs) && t.Leaf? && !Full(t)
    modifies x`length, x.records, x.children
    ensures Stands(l, Leaf(InsertAt(t.recs, UpperIndex(t.recs, n.val), n)), outs)
  {
    var i := SearchInner(x, n.val);
    PutRecord(x, i, n, t.recs);
  }

  ghost predicate KidsStand(l: Layout, t: Tree, outs: seq<BtNode?>)
    requires t.Node? && outs != []
    reads AllObjs(l.kids)
  {
    AllRep(l.kids, t.kids) && AllChained(l.kids, outs[1..])
  }

  /** A record below every separator replaces the first one. */
  method OverwriteFirst(x: BtNode, n: Record, ghost l: Layout, ghost t: Tree, ghost outs: seq<BtNode?>)
    requires l.node == x && Stands(l, t, outs) && t.Node? && t.recs != []
    modifies x.records
    ensures Stands(l, Node(t.recs[0 := n], t.kids), outs)
  {
    assert KidsStand(l, t, outs);
    x.records[0] := n;
    assert KidsStand(l, t, outs);
    assert x.records[..x.length] == t.recs[0 := n];
  }

  /** The split of a full child, and the choice between its halves. */
  method SplitAndChoose(x: BtNode, y: BtNode, j: nat, n: Record, ghost l: Layout, ghost t: Tree, ghost h: nat,
                        ghost outs: seq<BtNode?>)
    returns (y': BtNode, ghost l': Layout, ghost added: set<object>)
    requires l.node == x && Stands(l, t, outs)
    requires h > 0 && Body(t, h) && !Full(t) && j < |t.kids| == |l.kids| && Full(t.kids[j]) && y == l.kids[j].node
    modifies Objs(l)
    ensures t.kids[j].Node? ==> |t.kids[j].kids| == |t.kids[j].recs|
    ensures var s := SplitChild(t, j + 1);
            && |s.recs| == |t.recs| + 1
            && Stands(l', s, outs) && l'.node == x && Spine(l') == Spine(l) && |l'.kids| == |s.kids|
            && y' == l'.kids[if s.recs[j + 1].val < n.val then j + 1 else j].node
    ensures Objs(l') == Objs(l) + added && fresh(added)
  {
    var right := SplitKid(x, y, j, l, t, h, outs);
    SplitEntries(t, j + 1, h);
    l', added := SplitLayout(l, j, right), Own(right);
    y' := y;
    if x.records[j + 1].val < n.val {
      ChildHere(x, j + 1, l', SplitChild(t, j + 1));
      y' := x.children[j + 1];
    }
  }

  /** The child to descend to, or the half of it if it is full. */
  method ChildOrHalf(x: BtNode, j: nat, n: Record, ghost l: Layout, ghost t: Tree, ghost h: nat,
                     ghost outs: seq<BtNode?>)
    returns (y: BtNode, ghost l': Layout, ghost added: set<object>)
    requires l.node == x && Stands(l, t, outs) && h > 0 && Body(t, h) && !Full(t) && j < |t.kids|
    modifies Objs(l)
    ensures var d := Choose(t, n, j, h);
            && Stands(l', d.node, outs) && l'.node == x && Spine(l') == Spine(l)
            && |l'.kids| == |d.node.kids| && y == l'.kids[d.child].node
    ensures Objs(l') == Objs(l) + added && fresh(added)
  {
    Open(l, t, j, outs);
    ChildHere(x, j, l, t);
    y := x.children[j];
    l', added := l, {};
    if y.length >= NODE_SIZE {
      y, l', added := SplitAndChoose(x, y, j, n, l, t, h, outs);
    }
  }

  /** bt_insert_non_full before its recursive call: the child it descends to, in a node that can take it. */
  method DescendNode(x: BtNode, n: Record, ghost l: Layout, ghost t: Tree, ghost h: nat, ghost outs: seq<BtNode?>)
    returns (y: BtNode, ghost l': Layout, ghost added: set<object>)
    requires l.node == x && Stands(l, t, outs) && h > 0 && Body(t, h) && !Full(t)
    modifies Objs(l)
    ensures var d := Descend(t, n, h);
            && Stands(l', d.node, outs) && l'.node == x && Spine(l') == Spine(l)
            && |l'.kids| == |d.node.kids| && y == l'.kids[d.child].node
    ensures Objs(l') == Objs(l) + added && fresh(added)
  {
    ObjsAllocated(l);
    var i := SearchInner(x, n.val);
    ghost var t1 := if i == 0 then Node(t.recs[0 := n], t.kids) else t;
    if i == 0 {
      OverwriteFirst(x, n, l, t, outs);
    }
    var j := if i == 0 then 0 else i - 1;
    assert Stands(l, t1, outs) && Body(t1, h);
    y, l', added := ChildOrHalf(x, j, n, l, t1, h, outs);
  }

  /** bt_insert_non_full. */
  method InsertNode(x: BtNode, n: Record, ghost l: Layout, ghost t: Tree, ghost h: nat, ghost outs: seq<BtNode?>)
    returns (ghost l': Layout, ghost added: set<object>)
    requires l.node == x && Stands(l, t, outs) && Body(t, h) && !Full(t)
    modifies Objs(l)
    ensures Stands(l', InsertNonFull(t, n, h), outs) && l'.node == x && Spine(l') == Spine(l)
    ensures Objs(l') == Objs(l) + added && fresh(added)
    decreases h, 2
  {
    if x.leaf {
      InsertIntoLeaf(x, n, l, t, outs);
      l', added := l, {};
    } else {
      var y;
      y, l', added := DescendNode(x, n, l, t, h, outs);
      KidWithin(l', Descend(t, n, h).child);
      ghost var more;
      l', more := InsertIntoKid(y, n, l', Descend(t, n, h).node, Descend(t, n, h).child, h, outs);
      added := added + more;
    }
  }

  /** The recursive call of bt_insert_non_full, seen from the parent. */
  method InsertIntoKid(y: BtNode, n: Record, ghost l: Layout, ghost t: Tree, ghost k: nat, ghost h: nat,
                       ghost outs: seq<BtNode?>) returns (ghost l': Layout, ghost added: set<object>)
    requires Stands(l, t, outs) && h > 0 && Body(t, h) && k < |t.kids| == |l.kids| && y == l.kids[k].node
    requires Body(t.kids[k], h - 1) && !Full(t.kids[k])
    modifies Objs(l.kids[k])
    ensures l'.node == l.node && Spine(l') == Spine(l)
    ensures Stands(l', Node(t.recs, t.kids[k := InsertNonFull(t.kids[k], n, h - 1)]), outs)
    ensures Objs(l') == Objs(l) + added && fresh(added)
    decreases h, 1, 1
  {
    Open(l, t, k, outs);
    assert SidesStand(l, t, k, outs);
    ghost var lc;
    lc, added := InsertOpened(y, n, l, t, k, InsertNonFull(t.kids[k], n, h - 1), h, outs);
    l' := WithKid(l, k, lc);
  }

  /** The same on the opened parent, whose child `k` becomes `c`. */
  method InsertOpened(y: BtNode, n: Record, ghost l: Layout, ghost t: Tree, ghost k: nat, ghost c: Tree, ghost h: nat,
                      ghost outs: seq<BtNode?>) returns (ghost lc: Layout, ghost added: set<object>)
    requires h > 0 && t.Node? && k < |t.kids| == |l.kids| && y == l.kids[k].node
    requires SidesStand(l, t, k, outs) && Around(l, k)
    requires Stands(l.kids[k], t.kids[k], Heads(l.kids[k + 1..], outs[1..]))
    requires Body(t.kids[k], h - 1) && !Full(t.kids[k]) && c == InsertNonFull(t.kids[k], n, h - 1)
    modifies Objs(l.kids[k])
    ensures Stands(WithKid(l, k, lc), Node(t.recs, t.kids[k := c]), outs)
    ensures Spine(WithKid(l, k, lc)) == Spine(l) && Objs(WithKid(l, k, lc)) == Objs(l) + added && fresh(added)
    decreases h, 1, 0
  {
    lc, added := InsertAside(y, n, l, t, k, c, h, outs);
    CloseGrown(l, t, k, lc, c, added, outs);
  }

  /** The same call leaves everything beside the child alone, and what it adds is new. */
  method InsertAside(y: BtNode, n: Record, ghost l: Layout, ghost t: Tree, ghost k: nat, ghost c: Tree, ghost h: nat,
                     ghost outs: seq<BtNode?>) returns (ghost lc: Layout, ghost added: set<object>)
    requires h > 0 && t.Node? && k < |t.kids| == |l.kids| && y == l.kids[k].node
    requires SidesStand(l, t, k, outs) && Around(l, k)
    requires Stands(l.kids[k], t.kids[k], Heads(l.kids[k + 1..], outs[1..]))
    requires Body(t.kids[k], h - 1) && !Full(t.kids[k]) && c == InsertNonFull(t.kids[k], n, h - 1)
    modifies Objs(l.kids[k])
    ensures lc.node == y && Spine(lc) == Spine(l.kids[k])
    ensures Stands(lc, c, Heads(l.kids[k + 1..], outs[1..])) && SidesStand(l, t, k, outs)
    ensures Objs(lc) == Objs(l.kids[k]) + added && fresh(added) && added !! Objs(l)
    decreases h, 0
  {
    ObjsAllocated(l);
    lc, added := InsertNode(y, n, l.kids[k], t.kids[k], h - 1, Heads(l.kids[k + 1..], outs[1..]));
    assert SidesStand(l, t, k, outs);
  }
}
