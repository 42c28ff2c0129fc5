/** bt_split_child on the heap does to the tree what SplitChild does to its value, chains included. */
module BTreeSplit {
  import opened BTreeModel
  import opened BTreeHeap

  ghost function LeftPart(l: Layout): Layout {
    Layout(l.node, l.kids[..|l.kids| / 2])
  }

  ghost function RightPart(l: Layout, right: BtNode): Layout {
    Layout(right, l.kids[|l.kids| / 2..])
  }

  /** The layout after child `i` of `l` has been split, `right` holding its upper half. */
  ghost function SplitLayout(l: Layout, i: nat, right: BtNode): Layout
    requires i < |l.kids|
  {
    Layout(l.node, l.kids[..i] + [LeftPart(l.kids[i]), RightPart(l.kids[i], right)] + l.kids[i + 1..])
  }

  /** The objects of a layout seen from its child `i`: the node, what is left, the child, what is right. */
  ghost predicate Around(l: Layout, i: nat)
    requires i < |l.kids|
  {
    var own, a, y, b := Own(l.node), AllObjs(l.kids[..i]), Objs(l.kids[i]), AllObjs(l.kids[i + 1..]);
    && AllSeparate(l.kids[..i]) && Separate(l.kids[i]) && AllSeparate(l.kids[i + 1..])
    && own !! a && own !! y && own !! b && a !! y && a !! b && y !! b
    && Objs(l) == own + a + y + b
  }

  lemma OpenSeparate(l: Layout, i: nat)
    requires Separate(l) && i < |l.kids|
    ensures Around(l, i)
  {
    var a, y, b := l.kids[..i], l.kids[i], l.kids[i + 1..];
    assert l.kids == a + [y] + b;
    SeparateParts(a, [y], b);
    ObjsParts(a, [y], b);
    Single(y);
  }

  /** Child `i` gives way to the layouts `m` over its objects and some new ones. */
  lemma PlaceSeparate(l: Layout, i: nat, m: seq<Layout>, added: set<object>)
    requires i < |l.kids| && Around(l, i) && AllSeparate(m)
    requires AllObjs(m) == Objs(l.kids[i]) + added && added !! Objs(l)
    ensures var l' := Layout(l.node, l.kids[..i] + m + l.kids[i + 1..]);
            Separate(l') && Objs(l') == Objs(l) + added
  {
    SeparateParts(l.kids[..i], m, l.kids[i + 1..]);
    ObjsParts(l.kids[..i], m, l.kids[i + 1..]);
  }

  lemma HalvesSeparate(l: Layout)
    requires Separate(l)
    ensures var a, b := l.kids[..|l.kids| / 2], l.kids[|l.kids| / 2..];
            && AllSeparate(a) && AllSeparate(b) && AllObjs(a) !! AllObjs(b)
            && AllObjs(l.kids) == AllObjs(a) + AllObjs(b)
  {
    var m := |l.kids| / 2;
    assert l.kids == l.kids[..m] + l.kids[m..];
    SeparateConcat(l.kids[..m], l.kids[m..]);
    ObjsConcat(l.kids[..m], l.kids[m..]);
  }

  lemma PartsSeparate(l: Layout, right: BtNode)
    requires Separate(l) && Own(right) !! Objs(l)
    ensures AllSeparate([LeftPart(l), RightPart(l, right)])
    ensures AllObjs([LeftPart(l), RightPart(l, right)]) == Objs(l) + Own(right)
  {
    HalvesSeparate(l);
    Pair(LeftPart(l), RightPart(l, right));
  }

  lemma SplitSeparate(l: Layout, i: nat, right: BtNode)
    requires Separate(l) && Own(right) !! Objs(l) && i < |l.kids|
    ensures Separate(SplitLayout(l, i, right))
    ensures Objs(SplitLayout(l, i, right)) == Objs(l) + Own(right)
  {
    OpenSeparate(l, i);
    PartsSeparate(l.kids[i], right);
    PlaceSeparate(l, i, [LeftPart(l.kids[i]), RightPart(l.kids[i], right)], Own(right));
  }

  // ---------- Contents and chains ----------

  lemma PartsRep(l: Layout, t: Tree, right: BtNode)
    requires t.Node? ==> |t.kids| == |t.recs| && AllRep(l.kids, t.kids)
    requires Holds(LeftPart(l), LeftHalf(t)) && Holds(RightPart(l, right), RightHalf(t))
    ensures AllRep([LeftPart(l), RightPart(l, right)], [LeftHalf(t), RightHalf(t)])
  {
    var m := |l.kids| / 2;
    if t.Node? {
      assert l.kids == l.kids[..m] + l.kids[m..] && t.kids == t.kids[..m] + t.kids[m..];
      RepConcat(l.kids[..m], l.kids[m..], t.kids[..m], t.kids[m..]);
    }
    var L, R := LeftPart(l), RightPart(l, right);
    assert [L, R] == [L] + [R] && [LeftHalf(t), RightHalf(t)] == [LeftHalf(t)] + [RightHalf(t)];
    RepConcat([L], [R], [LeftHalf(t)], [RightHalf(t)]);
    SingleRep(L, LeftHalf(t));
    SingleRep(R, RightHalf(t));
  }

  lemma PartsChained(l: Layout, outs: seq<BtNode?>, right: BtNode)
    requires outs != [] && AllChained(l.kids, outs[1..]) && |l.kids| != 1
    requires l.node.next == right && right.next == outs[0]
    ensures AllChained([LeftPart(l), RightPart(l, right)], outs)
    ensures Spine(LeftPart(l)) == Spine(l)
  {
    var m := |l.kids| / 2;
    assert l.kids == l.kids[..m] + l.kids[m..];
    ChainedConcat(l.kids[..m], l.kids[m..], outs[1..]);
    var L, R := LeftPart(l), RightPart(l, right);
    if l.kids != [] {
      assert R.kids[0] == l.kids[m] && Spine(R)[1..] == Spine(R.kids[0]);
    }
    assert Chained(L, Spine(R)) && Chained(R, outs);
    assert [L, R] == [L] + [R];
    ChainedConcat([L], [R], outs);
    SingleChained(L, Spine(R));
    SingleChained(R, outs);
  }

  /** A standing node seen from its child `i`: the child, and what is left and right of it. */
  ghost predicate Opened(l: Layout, t: Tree, i: nat, outs: seq<BtNode?>)
    requires t.Node? && i < |t.kids| == |l.kids|
    reads Objs(l), AllObjs(l.kids[..i]), Objs(l.kids[i]), AllObjs(l.kids[i + 1..])
  {
    var a, y, b := l.kids[..i], l.kids[i], l.kids[i + 1..];
    && Holds(l, t) && outs != [] && l.node.next == outs[0]
    && AllRep(a, t.kids[..i]) && Rep(y, t.kids[i]) && AllRep(b, t.kids[i + 1..])
    && AllChained(a, Spine(y)) && Chained(y, Heads(b, outs[1..])) && AllChained(b, outs[1..])
    && Around(l, i)
  }

  lemma Open(l: Layout, t: Tree, i: nat, outs: seq<BtNode?>)
    requires Stands(l, t, outs) && t.Node? && i < |t.kids|
    ensures |l.kids| == |t.kids| && Opened(l, t, i, outs)
  {
    var a, y, b := l.kids[..i], l.kids[i], l.kids[i + 1..];
    assert l.kids == a + [y] + b && t.kids == t.kids[..i] + [t.kids[i]] + t.kids[i + 1..];
    OpenSeparate(l, i);
    RepParts(a, [y], b, t.kids[..i], [t.kids[i]], t.kids[i + 1..]);
    ChainedParts(a, [y], b, outs[1..]);
    SingleRep(y, t.kids[i]);
    SingleChained(y, Heads(b, outs[1..]));
  }

  // ---------- The step on the heap ----------

  /** `l.node` after bt_split_child has put `right` next to its child `i`; `t` is what it held. */
  ghost predicate Parted(l: Layout, t: Tree, i: nat, right: BtNode)
    requires i < |t.recs| == |l.kids| < NODE_SIZE && Buffers(l.node) && Buffers(right)
    reads Own(l.node), right.records
  {
    && !l.node.leaf && l.node.length == |t.recs| + 1
    && l.node.records[i + 1] == right.records[0] && l.node.children[i + 1] == right
    && (forall k :: 0 <= k <= i ==> l.node.records[k] == t.recs[k])
    && (forall k :: 0 <= k <= i ==> l.node.children[k] == l.kids[k].node)
    && (forall k :: i < k < |t.recs| ==> l.node.records[k + 1] == t.recs[k])
    && (forall k :: i < k < |t.recs| ==> l.node.children[k + 1] == l.kids[k].node)
  }

  /** `l.node` after it has been split into itself and `right`; `t` is what it held. */
  ghost predicate Cut(l: Layout, t: Tree, right: BtNode)
    requires |t.recs| <= NODE_SIZE && Buffers(l.node) && Buffers(right)
    reads Own(l.node), Own(right)
  {
    var m := |t.recs| / 2;
    && l.node.length == m && right.length == |t.recs| - m
    && l.node.leaf == right.leaf == t.Leaf?
    && l.node.records[..m] == t.recs[..m] && right.records[..right.length] == t.recs[m..]
    && (t.Leaf? ==> l.kids == [])
    && (t.Node? ==>
          && |l.kids| == |t.kids| == |t.recs|
          && (forall k :: 0 <= k < m ==> l.node.children[k] == l.kids[k].node)
          && (forall k :: 0 <= k < right.length ==> right.children[k] == l.kids[m + k].node))
  }

  /** The parent of a split child holds the separators and children of SplitChild. */
  lemma ParentHolds(l: Layout, t: Tree, i: nat, h: nat, right: BtNode)
    requires h > 0 && Body(t, h) && !Full(t) && i < |t.kids| == |l.kids| && Full(t.kids[i])
    requires Buffers(l.node) && Buffers(right) && Parted(l, t, i, right)
    requires t.kids[i].Node? ==> |t.kids[i].kids| == |t.kids[i].recs|
    requires right.records[0] == RightHalf(t.kids[i]).recs[0]
    ensures Holds(SplitLayout(l, i, right), SplitChild(t, i + 1))
  {
    var s, l' := SplitChild(t, i + 1), SplitLayout(l, i, right);
    forall k | 0 <= k < |s.recs| ensures l.node.records[k] == s.recs[k] && l.node.children[k] == l'.kids[k].node {
      if k > i + 1 {
        assert l.node.records[(k - 1) + 1] == t.recs[k - 1] && l.node.children[(k - 1) + 1] == l.kids[k - 1].node;
      }
    }
  }

  /** Both halves of a split node hold their halves of the tree. */
  lemma HalvesHold(l: Layout, t: Tree, right: BtNode)
    requires Full(t) && |t.recs| <= NODE_SIZE && Buffers(l.node) && Buffers(right) && Cut(l, t, right)
    ensures Holds(LeftPart(l), LeftHalf(t)) && Holds(RightPart(l, right), RightHalf(t))
  {
  }

  lemma SplitRep(l: Layout, t: Tree, i: nat, h: nat, right: BtNode)
    requires h > 0 && Body(t, h) && !Full(t) && i < |t.kids| && Full(t.kids[i])
    requires |l.kids| == |t.kids| && (t.kids[i].Node? ==> |t.kids[i].kids| == |t.kids[i].recs|)
    requires Holds(SplitLayout(l, i, right), SplitChild(t, i + 1))
    requires var y, ty := l.kids[i], t.kids[i];
             && Holds(LeftPart(y), LeftHalf(ty)) && Holds(RightPart(y, right), RightHalf(ty))
             && (ty.Node? ==> AllRep(y.kids, ty.kids))
             && AllRep(l.kids[..i], t.kids[..i]) && AllRep(l.kids[i + 1..], t.kids[i + 1..])
    ensures Rep(SplitLayout(l, i, right), SplitChild(t, i + 1))
  {
    var y, ty := l.kids[i], t.kids[i];
    PartsRep(y, ty, right);
    var pair, tpair := [LeftPart(y), RightPart(y, right)], [LeftHalf(ty), RightHalf(ty)];
    RepParts(l.kids[..i], pair, l.kids[i + 1..], t.kids[..i], tpair, t.kids[i + 1..]);
    assert SplitChild(t, i + 1).kids == t.kids[..i] + tpair + t.kids[i + 1..];
  }

  lemma SplitChained(l: Layout, i: nat, right: BtNode, outs: seq<BtNode?>)
    requires i < |l.kids| && |l.kids[i].kids| != 1 && outs != [] && l.node.next == outs[0]
    requires var y, b := l.kids[i], l.kids[i + 1..];
             var out := Heads(b, outs[1..]);
             && AllChained(l.kids[..i], Spine(y)) && AllChained(b, outs[1..])
             && out != [] && AllChained(y.kids, out[1..]) && y.node.next == right && right.next == out[0]
    ensures Chained(SplitLayout(l, i, right), outs)
    ensures Spine(SplitLayout(l, i, right)) == Spine(l)
  {
    var y, b := l.kids[i], l.kids[i + 1..];
    var pair := [LeftPart(y), RightPart(y, right)];
    PartsChained(y, Heads(b, outs[1..]), right);
    ChainedParts(l.kids[..i], pair, b, outs[1..]);
  }

  /** The part of an opened node that a split of child `i` does not touch. */
  ghost predicate RestStands(l: Layout, t: Tree, i: nat, outs: seq<BtNode?>)
    requires t.Node? && i < |t.kids| == |l.kids| && outs != [] && Heads(l.kids[i + 1..], outs[1..]) != []
    reads AllObjs(l.kids[..i]), AllObjs(l.kids[i].kids), AllObjs(l.kids[i + 1..])
  {
    var a, y, b := l.kids[..i], l.kids[i], l.kids[i + 1..];
    && AllRep(a, t.kids[..i]) && AllRep(b, t.kids[i + 1..])
    && (t.kids[i].Node? ==> AllRep(y.kids, t.kids[i].kids))
    && AllChained(a, Spine(y)) && AllChained(b, outs[1..])
    && AllChained(y.kids, Heads(b, outs[1..])[1..])
  }

  lemma SplitStep(l: Layout, t: Tree, i: nat, h: nat, outs: seq<BtNode?>, right: BtNode)
    requires h > 0 && Body(t, h) && !Full(t) && i < |t.kids| == |l.kids|
    requires Full(t.kids[i]) && |t.kids[i].recs| <= NODE_SIZE
    requires Buffers(l.node) && Buffers(l.kids[i].node) && Buffers(right)
    requires Parted(l, t, i, right) && Cut(l.kids[i], t.kids[i], right)
    requires outs != [] && l.node.next == outs[0] && Heads(l.kids[i + 1..], outs[1..]) != []
    requires l.kids[i].node.next == right && right.next == Heads(l.kids[i + 1..], outs[1..])[0]
    requires RestStands(l, t, i, outs)
    requires Separate(l) && Own(right) !! Objs(l)
    ensures t.kids[i].Node? ==> |t.kids[i].kids| == |t.kids[i].recs|
    ensures Stands(SplitLayout(l, i, right), SplitChild(t, i + 1), outs)
    ensures Objs(SplitLayout(l, i, right)) == Objs(l) + Own(right)
    ensures Spine(SplitLayout(l, i, right)) == Spine(l)
  {
    SplitShape(t, i + 1, h);
    ParentHolds(l, t, i, h, right);
    HalvesHold(l.kids[i], t.kids[i], right);
    SplitRep(l, t, i, h, right);
    SplitChained(l, i, right, outs);
    SplitSeparate(l, i, right);
  }

  /** bt_split_child, as a step on the two nodes it reads. */
  method CutKid(x: BtNode, y: BtNode, i: nat, ghost l: Layout, ghost t: Tree) returns (right: BtNode)
    requires t.Node? && !Full(t) && i < |t.kids| == |l.kids| && Full(t.kids[i])
    requires l.node == x && y == l.kids[i].node && Own(x) !! Own(y)
    requires Holds(l, t) && Holds(l.kids[i], t.kids[i])
    modifies x`length, x.records, x.children, y`length, y`next
    ensures fresh(Own(right)) && Buffers(right)
    ensures Parted(l, t, i, right) && Cut(l.kids[i], t.kids[i], right)
    ensures y.next == right && right.next == old(y.next)
  {
    assert forall k :: 0 <= k < |t.kids| ==> ChildIs(x, k, l.kids[k]);
    assert t.kids[i].Node? ==> forall k :: 0 <= k < |t.kids[i].kids| ==> ChildIs(y, k, l.kids[i].kids[k]);
    right := SplitNode(x, y, i + 1);
    assert forall k :: 0 <= k < |t.recs| ==> old(x.records[k]) == t.recs[k];
    assert forall k :: 0 <= k < |t.recs| ==> old(x.children[k]) == l.kids[k].node;
  }

  /** bt_split_child on child `i` of the tree at `x`. */
  method SplitKid(x: BtNode, y: BtNode, i: nat, ghost l: Layout, ghost t: Tree, ghost h: nat, ghost outs: seq<BtNode?>)
    returns (right: BtNode)
    requires l.node == x && Stands(l, t, outs)
    requires h > 0 && Body(t, h) && !Full(t) && i < |t.kids| == |l.kids| && Full(t.kids[i]) && y == l.kids[i].node
    modifies Objs(l)
    ensures fresh(Own(right))
    ensures t.kids[i].Node? ==> |t.kids[i].kids| == |t.kids[i].recs|
    ensures Stands(SplitLayout(l, i, right), SplitChild(t, i + 1), outs)
    ensures Objs(SplitLayout(l, i, right)) == Objs(l) + Own(right)
    ensures Spine(SplitLayout(l, i, right)) == Spine(l)
  {
    Open(l, t, i, outs);
    ObjsAllocated(l);
    assert RestStands(l, t, i, outs);
    right := CutKid(x, y, i, l, t);
    assert RestStands(l, t, i, outs);
    SplitStep(l, t, i, h, outs, right);
  }
}
