/**
  place_btree_nexts and load_btree_index of src/persist.c: after a load every `next` pointer is
  stale, and one pass from the root down rebuilds the chain of every level.
 */
module Relink {
  import opened BTreeModel
  import opened BTreeHeap

  /** Each node of `outs` stands on the level below the one before it, as its first child. */
  ghost predicate Downward(outs: seq<BtNode?>)
    reads set n: BtNode | n in outs :: n.children
  {
    forall k :: 0 <= k < |outs| - 1 ==> DownAt(outs, k)
  }

  ghost predicate DownAt(outs: seq<BtNode?>, k: nat)
    requires k + 1 < |outs|
    reads set n: BtNode | n in outs :: n.children
  {
    if outs[k] == null then outs[k + 1] == null
    else Buffers(outs[k]) && outs[k].children[0] == outs[k + 1]
  }

  lemma {:induction false} SpineDownward(l: Layout, t: Tree, h: nat)
    requires Rep(l, t) && Body(t, h)
    ensures |Spine(l)| == h + 1 && Downward(Spine(l))
    decreases h
  {
    if h > 0 {
      assert RepAt(l.kids, t.kids, 0) && Filled(t.kids[0], h - 1) && ChildIs(l.node, 0, l.kids[0]);
      SpineDownward(l.kids[0], t.kids[0], h - 1);
      var s, below := Spine(l), Spine(l.kids[0]);
      forall k | 0 <= k < |s| - 1 ensures DownAt(s, k) {
        if k > 0 { assert DownAt(below, k - 1); }
      }
    }
  }

  /** The nodes of a layout without their buffers. */
  ghost function Nodes(l: Layout): set<BtNode> {
    set n: BtNode | n in Objs(l)
  }

  ghost predicate NextIs(ls: seq<Layout>, k: nat, out: BtNode?)
    requires k < |ls|
    reads ls[k].node
  {
    ls[k].node.next == if k + 1 < |ls| then ls[k + 1].node else out
  }

  lemma OtherNodes(ls: seq<Layout>, i: nat)
    requires AllSeparate(ls) && i < |ls|
    ensures forall k :: 0 <= k < |ls| && k != i ==> ls[k].node != ls[i].node
  {
    var a, y, b := ls[..i], ls[i], ls[i + 1..];
    assert ls == a + [y] + b;
    SeparateParts(a, [y], b);
    Single(y);
    forall k | 0 <= k < |ls| && k != i ensures ls[k].node != y.node {
      if k < i { assert ls[k] == a[k] && a[k].node in Objs(a[k]); }
      else { assert ls[k] == b[k - i - 1] && b[k - i - 1].node in Objs(b[k - i - 1]); }
    }
  }

  /** One assignment to a `next` pointer: no record and no child changes, here or beside. */
  method AssignNext(node: BtNode, target: BtNode?, ghost y: Layout, ghost ty: Tree, ghost a: seq<Layout>,
                    ghost ta: seq<Tree>, ghost b: seq<Layout>, ghost tb: seq<Tree>)
    requires node == y.node && Rep(y, ty) && Separate(y) && AllRep(a, ta) && AllRep(b, tb)
    requires node !in AllObjs(a) && node !in AllObjs(b)
    modifies node`next
    ensures node.next == target && Rep(y, ty) && AllRep(a, ta) && AllRep(b, tb)
  {
    AllObjsAllocated(a);
    AllObjsAllocated(b);
    AllObjsAllocated(y.kids);
    assert KidsRep(y, ty);
    node.next := target;
    assert KidsRep(y, ty);
  }

  /** The same for child `i` of a node. */
  method SetNext(node: BtNode, target: BtNode?, ghost ls: seq<Layout>, ghost ts: seq<Tree>, ghost i: nat)
    requires AllRep(ls, ts) && AllSeparate(ls) && i < |ls| && node == ls[i].node
    modifies node`next
    ensures AllRep(ls, ts) && node.next == target
  {
    ghost var a, y, b := ls[..i], ls[i], ls[i + 1..];
    ghost var ta, ty, tb := ts[..i], ts[i], ts[i + 1..];
    assert ls == a + [y] + b && ts == ta + [ty] + tb;
    RepParts(a, [y], b, ta, [ty], tb);
    SeparateParts(a, [y], b);
    Single(y);
    SingleRep(y, ty);
    assert node in Objs(y);
    AssignNext(node, target, y, ty, a, ta, b, tb);
    SingleRep(y, ty);
    RepParts(a, [y], b, ta, [ty], tb);
  }

  ghost predicate KidsRep(l: Layout, t: Tree)
    reads AllObjs(l.kids)
  {
    t.Node? ==> AllRep(l.kids, t.kids)
  }

  /** The first `n` children point to their right neighbours. */
  ghost predicate LinkedTo(ls: seq<Layout>, n: nat, out: BtNode?)
    requires n <= |ls|
    reads set k | 0 <= k < |ls| :: ls[k].node
  {
    forall k :: 0 <= k < n ==> NextIs(ls, k, out)
  }

  /** The node and its children, the first `i` of them with their new `next`. */
  ghost predicate Linking(l: Layout, t: Tree, i: nat, out: BtNode?)
    requires i <= |l.kids|
    reads Objs(l), set k | 0 <= k < |l.kids| :: l.kids[k].node
  {
    t.Node? && Holds(l, t) && AllRep(l.kids, t.kids) && LinkedTo(l.kids, i, out)
  }

  /** The assignment to the `next` pointer of child `i`. */
  method LinkKid(kid: BtNode, target: BtNode?, ghost l: Layout, ghost t: Tree, ghost i: nat, ghost out: BtNode?)
    requires i < |l.kids| && kid == l.kids[i].node && Separate(l) && Linking(l, t, i, out)
    requires target == if i + 1 < |l.kids| then l.kids[i + 1].node else out
    modifies kid`next
    ensures Linking(l, t, i + 1, out) && l.node.next == old(l.node.next)
  {
    NodeBelow(l, i);
    OtherNodes(l.kids, i);
    SetNext(kid, target, l.kids, t.kids, i);
    ghost var n := i + 1;
    forall k | 0 <= k < n ensures NextIs(l.kids, k, out) {
      if k < i { assert old(NextIs(l.kids, k, out)); }
    }
  }

  /**
    The two assignments of place_btree_nexts to the children of `root`: each points to its right
    neighbour, the last one to the first child of the node right of `root`.
   */
  method LinkKids(root: BtNode, ghost l: Layout, ghost t: Tree, ghost out: BtNode?)
    requires l.node == root && Rep(l, t) && Separate(l) && t.Node? && t.kids != []
    requires if root.next == null then out == null else Buffers(root.next) && root.next.children[0] == out
    modifies (set n: BtNode | n in AllObjs(l.kids))`next
    ensures Rep(l, t) && LinkedTo(l.kids, |l.kids|, out)
  {
    var i := 0;
    while i < root.length - 1
      invariant 0 <= i < |l.kids| == root.length && Linking(l, t, i, out)
      invariant root.next == old(root.next)
    {
      ChildHere(root, i, l, t);
      ChildHere(root, i + 1, l, t);
      NodeBelow(l, i);
      LinkKid(root.children[i], root.children[i + 1], l, t, i, out);
      i := i + 1;
    }
    ChildHere(root, i, l, t);
    NodeBelow(l, i);
    var target := if root.next != null then root.next.children[0] else null;
    LinkKid(root.children[root.length - 1], target, l, t, i, out);
  }

  lemma NodeBelow(l: Layout, i: nat)
    requires i < |l.kids|
    ensures l.kids[i].node in AllObjs(l.kids)
  {
    assert l.kids[i].node in Objs(l.kids[i]);
  }

  /** Where the chains leave child `i`: to the spine of its right neighbour, or out of the whole node. */
  ghost function OutsOf(l: Layout, i: nat, outs: seq<BtNode?>): seq<BtNode?>
    requires i < |l.kids| && outs != []
  {
    if i + 1 < |l.kids| then Spine(l.kids[i + 1]) else outs[1..]
  }

  /** The children of a node on their way to being chained: the first `i` subtrees are. */
  ghost predicate Placing(l: Layout, t: Tree, i: nat, outs: seq<BtNode?>)
    requires i <= |l.kids| && |outs| > 1
    reads Objs(l), set k | 0 <= k < |l.kids| :: l.kids[k].node
    reads AllObjs(l.kids[..i]), set n: BtNode | n in outs :: n.children
  {
    && t.Node? && Holds(l, t) && AllRep(l.kids, t.kids) && l.node.next == outs[0] && Downward(outs)
    && (forall k :: i <= k < |l.kids| ==> NextIs(l.kids, k, outs[1]))
    && AllChained(l.kids[..i], Heads(l.kids[i..], outs[1..]))
  }

  /** place_btree_nexts. `outs` are the nodes right of the subtree, one per level. */
  method PlaceNexts(root: BtNode, ghost l: Layout, ghost t: Tree, ghost h: nat, ghost outs: seq<BtNode?>)
    requires l.node == root && Rep(l, t) && Separate(l) && Body(t, h)
    requires |outs| == h + 1 && Downward(outs) && root.next == outs[0]
    modifies Nodes(l)`next
    ensures Rep(l, t) && Chained(l, outs)
    decreases h, 2
  {
    if !root.leaf {
      assert DownAt(outs, 0);
      LinkKids(root, l, t, outs[1]);
      assert forall k :: 0 <= k < |l.kids| ==> NextIs(l.kids, k, outs[1]);
      PlaceKids(root, l, t, h, outs);
    }
  }

  /** The second loop of place_btree_nexts. */
  method PlaceKids(root: BtNode, ghost l: Layout, ghost t: Tree, ghost h: nat, ghost outs: seq<BtNode?>)
    requires l.node == root && h > 0 && Body(t, h) && Separate(l) && |outs| == h + 1 && Placing(l, t, 0, outs)
    modifies Nodes(l)`next
    ensures Rep(l, t) && Chained(l, outs)
    decreases h, 1, 1
  {
    var i := 0;
    while i < root.length
      invariant i <= |l.kids| == root.length && Placing(l, t, i, outs)
    {
      ChildHere(root, i, l, t);
      KidWithin(l, i);
      PlaceKid(root.children[i], l, t, h, i, outs);
      i := i + 1;
    }
    assert l.kids[..i] == l.kids;
  }

  /** One recursive call of place_btree_nexts, among the children of a node. */
  method PlaceKid(kid: BtNode, ghost l: Layout, ghost t: Tree, ghost h: nat, ghost i: nat, ghost outs: seq<BtNode?>)
    requires h > 0 && Body(t, h) && Separate(l) && |outs| == h + 1 && i < |l.kids| && kid == l.kids[i].node
    requires Placing(l, t, i, outs)
    modifies Nodes(l.kids[i])`next
    ensures Placing(l, t, i + 1, outs)
    decreases h, 1, 0
  {
    ghost var a, y, b := l.kids[..i], l.kids[i], l.kids[i + 1..];
    assert l.kids == a + [y] + b;
    SeparateParts(a, [y], b);
    ObjsParts(a, [y], b);
    Single(y);
    KidWithin(l, i);
    PlaceAside(kid, l, t, h, i, outs);
    ghost var n := i + 1;
    forall k | n <= k < |l.kids| ensures NextIs(l.kids, k, outs[1]) {
      assert old(NextIs(l.kids, k, outs[1])) && l.kids[k] == b[k - n] && b[k - n].node in Objs(b[k - n]);
    }
  }

  /** The same call leaves the records of all children, and the chains left of this one. */
  method PlaceAside(kid: BtNode, ghost l: Layout, ghost t: Tree, ghost h: nat, ghost i: nat, ghost outs: seq<BtNode?>)
    requires h > 0 && Body(t, h) && AllRep(l.kids, t.kids) && AllSeparate(l.kids)
    requires |outs| == h + 1 && Downward(outs) && i < |l.kids| && kid == l.kids[i].node && NextIs(l.kids, i, outs[1])
    requires AllChained(l.kids[..i], Heads(l.kids[i..], outs[1..]))
    modifies Nodes(l.kids[i])`next
    ensures AllRep(l.kids, t.kids)
    ensures AllChained(l.kids[..i + 1], Heads(l.kids[i + 1..], outs[1..]))
    decreases h, 0
  {
    ghost var a, y, b := l.kids[..i], l.kids[i], l.kids[i + 1..];
    ghost var ta, ty, tb := t.kids[..i], t.kids[i], t.kids[i + 1..];
    ghost var out := OutsOf(l, i, outs);
    assert l.kids == a + [y] + b && t.kids == ta + [ty] + tb;
    RepParts(a, [y], b, ta, [ty], tb);
    SeparateParts(a, [y], b);
    Single(y);
    SingleRep(y, ty);
    AllObjsAllocated(a);
    AllObjsAllocated(b);
    assert Filled(ty, h - 1);
    OutsDownward(l, t, h, i, outs);
    assert AllRep(a, ta) && AllRep(b, tb) && AllChained(a, Spine(y));
    PlaceNexts(kid, y, ty, h - 1, out);
    assert AllRep(a, ta) && AllRep(b, tb);
    SingleRep(y, ty);
    RepParts(a, [y], b, ta, [ty], tb);
    ChainedConcat(a, [y], out);
    SingleChained(y, out);
  }

  lemma OutsDownward(l: Layout, t: Tree, h: nat, i: nat, outs: seq<BtNode?>)
    requires h > 0 && Body(t, h) && AllRep(l.kids, t.kids) && i < |l.kids|
    requires |outs| == h + 1 && Downward(outs)
    ensures var out := OutsOf(l, i, outs);
            && |out| == h && Downward(out)
            && out[0] == if i + 1 < |l.kids| then l.kids[i + 1].node else outs[1]
  {
    if i + 1 < |l.kids| {
      assert RepAt(l.kids, t.kids, i + 1) && Filled(t.kids[i + 1], h - 1);
      SpineDownward(l.kids[i + 1], t.kids[i + 1], h - 1);
    } else {
      var out := outs[1..];
      forall k | 0 <= k < |out| - 1 ensures DownAt(out, k) { assert DownAt(outs, k + 1); }
    }
  }
}
