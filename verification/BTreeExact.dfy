/**
  The invariant that the comment at src/btree.c:95-96 claims: every separator of every node is
  the first record of its child. One kind of insertion breaks it, and no other.
 */
module BTreeExact {
  import opened Records
  import opened BTreeModel
  import opened BTreeOrder

  ghost predicate Exact(t: Tree, h: nat)
    requires Body(t, h)
    decreases h, 1
  {
    h > 0 ==> forall k :: 0 <= k < |t.kids| ==> ExactKid(t, k, h)
  }

  ghost predicate ExactKid(t: Tree, k: nat, h: nat)
    requires h > 0 && Body(t, h) && k < |t.kids|
    decreases h, 0
  {
    && Filled(t.kids[k], h - 1) && Exact(t.kids[k], h - 1)
    && t.recs[k] == t.kids[k].recs[0]
  }

  /** The first record of a node after `r` is inserted below it. */
  function FirstWith(t: Tree, r: Record): Record
    requires t.recs != []
  {
    if r.val < t.recs[0].val then r else t.recs[0]
  }

  lemma FirstAfter(t: Tree, r: Record, h: nat)
    requires Body(t, h) && !Full(t) && t.recs != []
    ensures var t' := InsertNonFull(t, r, h);
            t'.recs != [] && t'.recs[0] == FirstWith(t, r)
  {
    if h > 0 {
      var d := Descend(t, r, h);
    }
  }

  lemma HalvesExact(t: Tree, h: nat)
    requires Body(t, h) && Full(t) && Exact(t, h)
    ensures Body(LeftHalf(t), h) && Body(RightHalf(t), h)
    ensures Exact(LeftHalf(t), h) && Exact(RightHalf(t), h)
    ensures LeftHalf(t).recs != [] && LeftHalf(t).recs[0] == t.recs[0]
  {
    HalvesShape(t, h);
    var L, R := LeftHalf(t), RightHalf(t);
    if h > 0 {
      forall k | 0 <= k < |L.kids| ensures ExactKid(L, k, h) { assert ExactKid(t, k, h); }
      forall k | 0 <= k < |R.kids| ensures ExactKid(R, k, h) { assert ExactKid(t, |t.recs| / 2 + k, h); }
    }
  }

  /** Child `k` of a node that is ready for the descent of `r` into child `c`. */
  ghost predicate Prepared(x: Tree, k: nat, c: nat, r: Record, h: nat)
    requires h > 0 && Body(x, h) && k < |x.kids|
  {
    && Filled(x.kids[k], h - 1) && Exact(x.kids[k], h - 1)
    && x.recs[k] == if k == c then FirstWith(x.kids[k], r) else x.kids[k].recs[0]
  }

  ghost predicate AllPrepared(x: Tree, c: nat, r: Record, h: nat)
    requires h > 0 && Body(x, h)
  {
    forall k :: 0 <= k < |x.kids| ==> Prepared(x, k, c, r, h)
  }

  /** Lowering the first separator to a record below it is what its child will need. */
  lemma LowerExact(t: Tree, r: Record, h: nat)
    requires h > 0 && Body(t, h) && Exact(t, h)
    ensures var i := UpperIndex(t.recs, r.val);
            var x := if i == 0 then Node(t.recs[0 := r], t.kids) else t;
            Body(x, h) && AllPrepared(x, if i == 0 then 0 else i - 1, r, h)
  {
    var i := UpperIndex(t.recs, r.val);
    var x := if i == 0 then Node(t.recs[0 := r], t.kids) else t;
    var j := if i == 0 then 0 else i - 1;
    forall k | 0 <= k < |x.kids| ensures Prepared(x, k, j, r, h) {
      assert ExactKid(t, k, h);
    }
  }

  /** A split child leaves exact separators, whichever half the record goes to. */
  lemma SplitPrepared(x: Tree, j: nat, r: Record, h: nat)
    requires h > 0 && Body(x, h) && !Full(x) && j < |x.kids| && AllPrepared(x, j, r, h)
    requires Full(x.kids[j]) && Sorted(x.kids[j].recs)
    ensures x.kids[j].Node? ==> |x.kids[j].kids| == |x.kids[j].recs|
    ensures var s := SplitChild(x, j + 1);
            Body(s, h) && AllPrepared(s, if s.recs[j + 1].val < r.val then j + 1 else j, r, h)
  {
    var y := x.kids[j];
    assert Prepared(x, j, j, r, h);
    SplitShape(x, j + 1, h);
    SplitEntries(x, j + 1, h);
    HalvesExact(y, h - 1);
    var s := SplitChild(x, j + 1);
    var c := if s.recs[j + 1].val < r.val then j + 1 else j;
    assert s.recs[j + 1] == y.recs[|y.recs| / 2];
    assert Prepared(s, j, c, r, h);
    forall k | 0 <= k < |s.kids| ensures Prepared(s, k, c, r, h) {
      if k < j { assert Prepared(x, k, j, r, h); }
      if k > j + 1 { assert Prepared(x, k - 1, j, r, h); }
    }
  }

  lemma KidSorted(t: Tree, k: nat, h: nat, spine: bool)
    requires h > 0 && Ordered(t, h, spine) && k < |t.kids|
    ensures Sorted(t.kids[k].recs)
  {
    assert Kid(t, k, h, spine);
    if h > 1 { SeparatorsSorted(t.kids[k], h - 1, spine && k == 0); }
  }

  /** The descent keeps every separator equal to what its child will start with. */
  lemma DescendExact(t: Tree, r: Record, h: nat, spine: bool)
    requires h > 0 && Ordered(t, h, spine) && !Full(t) && Exact(t, h)
    ensures var d := Descend(t, r, h); AllPrepared(d.node, d.child, r, h)
  {
    var i := UpperIndex(t.recs, r.val);
    var j := if i == 0 then 0 else i - 1;
    LowerExact(t, r, h);
    if Full(t.kids[j]) {
      KidSorted(t, j, h, spine);
      SplitPrepared(if i == 0 then Node(t.recs[0 := r], t.kids) else t, j, r, h);
    }
  }

  /** bt_insert_non_full keeps every separator exact. */
  lemma {:induction false} InsertNonFullExact(t: Tree, r: Record, h: nat, spine: bool)
    requires Ordered(t, h, spine) && !Full(t) && Exact(t, h)
    requires !spine ==> t.recs != [] && t.recs[0].val <= r.val
    ensures Exact(InsertNonFull(t, r, h), h)
    decreases h
  {
    if h > 0 {
      var d := Descend(t, r, h);
      var x, c := d.node, d.child;
      DescendReady(t, r, h, spine);
      DescendExact(t, r, h, spine);
      assert Prepared(x, c, c, r, h);
      InsertNonFullExact(x.kids[c], r, h - 1, spine && c == 0);
      FirstAfter(x.kids[c], r, h - 1);
      var t' := InsertNonFull(t, r, h);
      forall k | 0 <= k < |t'.kids| ensures ExactKid(t', k, h) { assert Prepared(x, k, c, r, h); }
    }
  }

  /**
    From a tree in which the comment holds, bt_insert keeps it exactly unless the root is full
    and the record is a new minimum: then the first separator of the new root is too large.
   */
  lemma InsertExact(x: Index, r: Record)
    requires Invariant(x) && Exact(x.root, x.level)
    ensures var x' := Insert(x, r);
            Exact(x'.root, x'.level) <==> !(Full(x.root) && r.val < x.root.recs[0].val)
  {
    if Full(x.root) {
      InsertFullExact(x.root, r, x.level);
    } else {
      InsertNonFullExact(x.root, r, x.level, true);
    }
  }

  lemma InsertFullExact(t: Tree, r: Record, h: nat)
    requires Ordered(t, h, true) && Full(t) && Exact(t, h)
    ensures Exact(InsertFull(t, r, h), h + 1) <==> r.val >= t.recs[0].val
  {
    HalvesShape(t, h);
    HalvesOrdered(t, h, true);
    HalvesExact(t, h);
    if h > 0 { SeparatorsSorted(t, h, true); }
    var top := NewRoot(t);
    assert top.recs[0] == t.recs[0] && top.recs[1] == t.recs[|t.recs| / 2];
    var k := if top.recs[1].val < r.val then 1 else 0;
    InsertNonFullExact(top.kids[k], r, h, k == 0);
    FirstAfter(top.kids[k], r, h);
    RootExact(top, k, InsertNonFull(top.kids[k], r, h), h);
  }

  /** Under a root of two exact subtrees, one of them replaced. */
  lemma RootExact(top: Tree, k: nat, c: Tree, h: nat)
    requires top.Node? && |top.recs| == |top.kids| == 2 && k < 2
    requires forall i :: 0 <= i < 2 ==>
               Filled(top.kids[i], h) && Exact(top.kids[i], h) && top.recs[i] == top.kids[i].recs[0]
    requires Filled(c, h) && Exact(c, h)
    ensures var t' := Node(top.recs, top.kids[k := c]);
            Body(t', h + 1) && (Exact(t', h + 1) <==> c.recs[0] == top.recs[k])
  {
    var t' := Node(top.recs, top.kids[k := c]);
    assert Filled(t'.kids[0], h) && Filled(t'.kids[1], h);
    assert ExactKid(t', 1 - k, h + 1);
    assert ExactKid(t', k, h + 1) <==> c.recs[0] == top.recs[k];
  }

  // ---------- Whole runs ----------

  /** The comment holds of the tree after every insert of the run. */
  ghost predicate AlwaysExact(rs: seq<Record>) {
    Exact(Run(rs).root, Run(rs).level) && (rs != [] ==> AlwaysExact(rs[..|rs| - 1]))
  }

  /** No insert of the run is a new minimum that meets a full root. */
  predicate NeverLowers(rs: seq<Record>) {
    rs != [] ==>
      var before, r := rs[..|rs| - 1], rs[|rs| - 1];
      NeverLowers(before) && !(Full(Run(before).root) && r.val < Run(before).root.recs[0].val)
  }

  /** The comment holds throughout a run if and only if no new minimum ever meets a full root. */
  lemma {:induction false} RunsExact(rs: seq<Record>)
    ensures AlwaysExact(rs) <==> NeverLowers(rs)
  {
    if rs != [] {
      var before, r := rs[..|rs| - 1], rs[|rs| - 1];
      RunsExact(before);
      assert rs == before + [r];
      RunStep(before, r);
      if AlwaysExact(before) {
        RunInvariant(before);
        InsertExact(Run(before), r);
      }
    }
  }

  // ---------- A concrete tree in which the comment is false ----------

  /** Up to 169 values that never fall stay in their order, in one leaf. */
  lemma {:induction false} BulkAscending(v: seq<int>, n: nat)
    requires n <= |v| && n <= 169
    requires forall i, j :: 0 <= i < j < n ==> v[i] <= v[j]
    ensures Bulk(v, n) == Index(Leaf(Entries(v, n)), 0)
  {
    if n > 0 {
      BulkAscending(v, n - 1);
      var r, s := Record(n - 1, v[n - 1]), Entries(v, n - 1);
      assert UpperIndex(s, r.val) == n - 1;
      assert InsertAt(s, n - 1, r) == Entries(v, n);
    }
  }

  /** The next value is the first that needs an inner node: two leaves under a new root. */
  lemma BulkSplits(v: seq<int>)
    requires |v| == 170 && forall i, j :: 0 <= i < j < 169 ==> v[i] <= v[j]
    ensures var x := Bulk(v, 170);
            x.level == 1 && |x.root.kids| == 2 && x.root.recs == [Record(0, v[0]), Record(84, v[84])]
  {
    BulkAscending(v, 169);
    assert Full(Bulk(v, 169).root);
  }

  /** 1, 2, ..., 169, then 0. */
  function Falling(): (v: seq<int>)
    ensures |v| == 170 && v[169] == 0 && forall i :: 0 <= i < 169 ==> v[i] == i + 1
  {
    seq(169, i => i + 1) + [0]
  }

  lemma CommentFails()
    ensures !Exact(Bulk(Falling(), 170).root, Bulk(Falling(), 170).level)
  {
    var v := Falling();
    BulkAscending(v, 169);
    BulkInvariant(v, 169);
    InsertExact(Bulk(v, 169), Record(169, 0));
  }
}
