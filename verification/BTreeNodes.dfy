/** What the ordering invariant says about every single node of an index, addressed by its path. */
module BTreeNodes {
  import opened Records
  import opened BTreeModel
  import opened BTreeOrder

  /** The child numbers on the way from the root to a node. */
  type Path = seq<nat>

  predicate IsPath(t: Tree, p: Path)
    decreases |p|
  {
    p == [] || (t.Node? && p[0] < |t.kids| && IsPath(t.kids[p[0]], p[1..]))
  }

  function At(t: Tree, p: Path): Tree
    requires IsPath(t, p)
    decreases |p|
  {
    if p == [] then t else At(t.kids[p[0]], p[1..])
  }

  predicate Leftmost(p: Path) {
    forall k :: 0 <= k < |p| ==> p[k] == 0
  }

  lemma {:induction false} OrderedAt(t: Tree, p: Path, h: nat, spine: bool)
    requires Ordered(t, h, spine) && IsPath(t, p)
    ensures |p| <= h && Ordered(At(t, p), h - |p|, spine && Leftmost(p))
    ensures p != [] ==> Filled(At(t, p), h - |p|)
    decreases |p|
  {
    if p != [] {
      assert Kid(t, p[0], h, spine);
      OrderedAt(t.kids[p[0]], p[1..], h - 1, spine && p[0] == 0);
      assert Leftmost(p) <==> p[0] == 0 && Leftmost(p[1..]) by {
        assert forall k :: 1 <= k < |p| ==> p[k] == p[1..][k - 1];
      }
    }
  }

  /** All leaves have the same depth, and every node is at least half full unless it is the root. */
  lemma Occupancy(x: Index, p: Path)
    requires Invariant(x) && IsPath(x.root, p)
    ensures At(x.root, p).Leaf? <==> |p| == x.level
    ensures |At(x.root, p).recs| <= 169
    ensures p != [] ==> 84 <= |At(x.root, p).recs|
    ensures p == [] && x.level > 0 ==> 2 <= |At(x.root, p).recs|
  {
    OrderedAt(x.root, p, x.level, true);
  }

  /** How many records are below `d`. */
  function CountBelow(s: seq<Record>, d: int): nat {
    if s == [] then 0 else (if s[0].val < d then 1 else 0) + CountBelow(s[1..], d)
  }

  lemma {:induction false} CountBelowAtMost(s: seq<Record>, d: int, n: nat)
    requires forall i :: n <= i < |s| ==> s[i].val >= d
    ensures CountBelow(s, d) <= n
  {
    if s != [] {
      CountBelowAtMost(s[1..], d, if n == 0 then 0 else n - 1);
    }
  }

  /** The leftmost nodes hold the first records of the tree. */
  lemma {:induction false} LeftmostPrefix(t: Tree, p: Path)
    requires IsPath(t, p) && Leftmost(p)
    ensures InOrder(At(t, p)) <= InOrder(t)
    decreases |p|
  {
    if p != [] {
      assert forall k :: 0 <= k < |p[1..]| ==> p[1..][k] == p[k + 1];
      LeftmostPrefix(t.kids[0], p[1..]);
      FlatAt(t.kids, 0);
    }
  }

  /**
    Every separator of every inner node: they are sorted; each is the first record of its child
    and the smallest one below it, except for the first separator along the leftmost path, which
    is not below the smallest record and has at most as many records of the whole tree below it
    as its node has levels.
   */
  lemma Separators(x: Index, p: Path, k: nat)
    requires Invariant(x) && IsPath(x.root, p) && |p| < x.level && k < |At(x.root, p).recs|
    ensures var n := At(x.root, p);
            && n.Node? && |n.kids| == |n.recs| && Sorted(n.recs)
            && (k > 0 || !Leftmost(p) ==>
                  && n.kids[k].recs != [] && n.recs[k] == n.kids[k].recs[0]
                  && n.recs[k] in InOrder(n.kids[k])
                  && forall r :: r in InOrder(n.kids[k]) ==> n.recs[k].val <= r.val)
            && (Leftmost(p) ==>
                  && InOrder(n) != [] && InOrder(n)[0].val <= n.recs[0].val
                  && CountBelow(InOrder(x.root), n.recs[0].val) <= x.level - |p|)
  {
    var n, h := At(x.root, p), x.level - |p|;
    OrderedAt(x.root, p, x.level, true);
    SeparatorsSorted(n, h, Leftmost(p));
    assert Kid(n, k, h, Leftmost(p));
    if k > 0 || !Leftmost(p) {
      FirstIsMin(n.kids[k], h - 1);
    }
    if Leftmost(p) {
      LeftmostPrefix(x.root, p);
      var s := InOrder(x.root);
      assert s[h] == InOrder(n)[h];
      CountBelowAtMost(s, n.recs[0].val, h);
    }
  }
}
