/**
  Where exactly bt_insert puts a record, and when it makes new nodes. The tree is stable, so that an
  equal key goes behind its equals, unless a node that is split on the way has the very key as
  the first of its upper half.
 */
module BTreePlaces {
  import opened Records
  import opened BTreeModel
  import opened BTreeOrder
  import opened BTreeExact

  /** The child that the separators choose for `r` before any split. */
  function Candidate(t: Tree, r: Record): (j: nat)
    requires t.recs != []
    ensures j < |t.recs|
  {
    var i := UpperIndex(t.recs, r.val);
    if i == 0 then 0 else i - 1
  }

  /**
    Which child takes the record, and what becomes of the node: only a child of 169 entries is cut,
    into 84 and 85, and an equal key goes left.
   */
  lemma DescentIs(t: Tree, r: Record, h: nat, spine: bool)
    requires h > 0 && Ordered(t, h, spine) && !Full(t)
    ensures var d, j := Descend(t, r, h), Candidate(t, r);
            var y := t.kids[j];
            && j < |t.kids|
            && (j > 0 ==> t.recs[j].val <= r.val) && (j + 1 < |t.recs| ==> r.val < t.recs[j + 1].val)
            && (|y.recs| < 169 ==> d.node.kids == t.kids && d.child == j)
            && (|y.recs| >= 169 ==>
                  && |y.recs| == 169 && |d.node.kids| == |t.kids| + 1
                  && d.node.kids[j].recs == y.recs[..84] && d.node.kids[j + 1].recs == y.recs[84..]
                  && d.child == if y.recs[84].val < r.val then j + 1 else j)
  {
    var j := Candidate(t, r);
    var x := if UpperIndex(t.recs, r.val) == 0 then Node(t.recs[0 := r], t.kids) else t;
    SeparatorsSorted(t, h, spine);
    assert Filled(t.kids[j], h - 1);
    if Full(t.kids[j]) {
      SplitEntries(x, j + 1, h);
      HalvesSizes(t.kids[j], h - 1);
    }
  }

  /** bt_insert adds a level exactly when the root has 169 entries. */
  lemma LevelGrows(x: Index, r: Record)
    requires Balanced(x)
    ensures Insert(x, r).level == if |x.root.recs| == 169 then x.level + 1 else x.level
  {
  }

  // ---------- Equal keys ----------

  /** The child on the way is cut at `r`'s own key. */
  predicate TieHere(t: Tree, r: Record)
    requires t.Node? && t.recs != [] && |t.recs| == |t.kids|
  {
    var y := t.kids[Candidate(t, r)];
    |y.recs| == 169 && y.recs[84].val == r.val
  }

  /** Some node on the way is. */
  predicate TieBelow(t: Tree, r: Record, h: nat)
    requires Body(t, h) && !Full(t)
    decreases h
  {
    h > 0 && (TieHere(t, r) || var d := Descend(t, r, h); TieBelow(d.node.kids[d.child], r, h - 1))
  }

  /** A full root seen as the only child of a node: bt_insert splits it as it splits any other child. */
  function Above(t: Tree): Tree
    requires t.recs != []
  {
    Node([t.recs[0]], [t])
  }

  lemma AboveShape(t: Tree, h: nat)
    requires Body(t, h) && Full(t)
    ensures Body(Above(t), h + 1) && !Full(Above(t))
  {
    assert Filled(Above(t).kids[0], h);
  }

  predicate Tie(x: Index, r: Record)
    requires Balanced(x)
  {
    if |x.root.recs| == 169 then
      AboveShape(x.root, x.level);
      TieBelow(Above(x.root), r, x.level + 1)
    else TieBelow(x.root, r, x.level)
  }

  /** Some record from place `p` on is not above `r`. */
  ghost predicate EqualAfter(s: seq<Record>, p: nat, r: Record) {
    exists i :: p <= i < |s| && s[i].val <= r.val
  }

  /** After the chosen child all is above `r`, unless the cut was made at its key. */
  lemma AfterChild(t: Tree, r: Record, h: nat, spine: bool)
    requires h > 0 && Ordered(t, h, spine) && !Full(t) && (!spine ==> t.recs[0].val <= r.val)
    ensures var d := Descend(t, r, h); EqualAfter(Flat(d.node.kids[d.child + 1..]), 0, r) <==> TieHere(t, r)
  {
    var d := Descend(t, r, h);
    DescendReady(t, r, h, spine);
    NextSeparator(t, r, h, spine);
    if d.child + 1 < |d.node.kids| {
      RightOfChild(d.node, d.child, r, h, spine);
    }
  }

  lemma RightOfChild(x: Tree, k: nat, r: Record, h: nat, spine: bool)
    requires h > 0 && Core(x, h, spine) && k + 1 < |x.kids|
    ensures EqualAfter(Flat(x.kids[k + 1..]), 0, r) <==> x.recs[k + 1].val <= r.val
  {
    var B := Flat(x.kids[k + 1..]);
    FirstOfKid(x, k + 1, h, spine);
    FlatAt(x.kids[k + 1..], 0);
    FlatAt(x.kids, k);
    SortedParts(Flat(x.kids[..k]) + InOrder(x.kids[k]), B);
    assert B[0] == x.recs[k + 1];
    assert forall i :: 0 <= i < |B| ==> B[0].val <= B[i].val;
  }

  lemma NextSeparator(t: Tree, r: Record, h: nat, spine: bool)
    requires h > 0 && Ordered(t, h, spine) && !Full(t)
    ensures var d := Descend(t, r, h);
            && (TieHere(t, r) ==> d.child + 1 < |d.node.kids|)
            && (d.child + 1 < |d.node.kids| ==> (d.node.recs[d.child + 1].val <= r.val <==> TieHere(t, r)))
  {
    var j := Candidate(t, r);
    var x := if UpperIndex(t.recs, r.val) == 0 then Node(t.recs[0 := r], t.kids) else t;
    DescentIs(t, r, h, spine);
    assert Filled(t.kids[j], h - 1);
    if Full(t.kids[j]) {
      SplitEntries(x, j + 1, h);
    }
  }

  lemma EqualInParts(A: seq<Record>, C: seq<Record>, B: seq<Record>, q: nat, r: Record)
    requires q <= |C|
    ensures EqualAfter(A + C + B, |A| + q, r) <==> EqualAfter(C, q, r) || EqualAfter(B, 0, r)
  {
    var s := A + C + B;
    if EqualAfter(s, |A| + q, r) {
      var i :| |A| + q <= i < |s| && s[i].val <= r.val;
      assert if i < |A + C| then C[i - |A|] == s[i] else B[i - |A + C|] == s[i];
    }
    if EqualAfter(C, q, r) {
      var i :| q <= i < |C| && C[i].val <= r.val;
      assert s[|A| + i] == C[i];
    }
    if EqualAfter(B, 0, r) {
      var i :| 0 <= i < |B| && B[i].val <= r.val;
      assert s[|A + C| + i] == B[i];
    }
  }

  /** Equal records follow the place that bt_insert_non_full finds exactly after a tie. */
  lemma {:induction false} EqualBelow(t: Tree, r: Record, h: nat, spine: bool)
    requires Ordered(t, h, spine) && !Full(t) && (!spine ==> |t.recs| > 0 && t.recs[0].val <= r.val)
    ensures Place(t, r, h) <= |InOrder(t)|
    ensures EqualAfter(InOrder(t), Place(t, r, h), r) <==> TieBelow(t, r, h)
    decreases h
  {
    if h > 0 {
      var d := Descend(t, r, h);
      var y := d.node.kids[d.child];
      DescendReady(t, r, h, spine);
      EqualBelow(y, r, h - 1, spine && d.child == 0);
      EqualHere(t, r, h, spine, Place(y, r, h - 1));
    }
  }

  lemma EqualHere(t: Tree, r: Record, h: nat, spine: bool, q: nat)
    requires h > 0 && Ordered(t, h, spine) && !Full(t) && (!spine ==> t.recs[0].val <= r.val)
    requires q <= |InOrder(Descend(t, r, h).node.kids[Descend(t, r, h).child])|
    ensures var d := Descend(t, r, h);
            var p := |Flat(d.node.kids[..d.child])| + q;
            && p <= |InOrder(t)|
            && (EqualAfter(InOrder(t), p, r) <==> EqualAfter(InOrder(d.node.kids[d.child]), q, r) || TieHere(t, r))
  {
    var d := Descend(t, r, h);
    DescendReady(t, r, h, spine);
    AfterChild(t, r, h, spine);
    EqualAround(d.node, d.child, r, q);
  }

  /** A place inside child `k`, seen from the node. */
  lemma EqualAround(x: Tree, k: nat, r: Record, q: nat)
    requires x.Node? && k < |x.kids| && q <= |InOrder(x.kids[k])|
    ensures |Flat(x.kids[..k])| + q <= |InOrder(x)|
    ensures EqualAfter(InOrder(x), |Flat(x.kids[..k])| + q, r) <==>
              EqualAfter(InOrder(x.kids[k]), q, r) || EqualAfter(Flat(x.kids[k + 1..]), 0, r)
  {
    FlatAt(x.kids, k);
    EqualInParts(Flat(x.kids[..k]), InOrder(x.kids[k]), Flat(x.kids[k + 1..]), q, r);
  }

  lemma AboveOrdered(t: Tree, h: nat)
    requires Ordered(t, h, true) && Full(t)
    ensures Ordered(Above(t), h + 1, true) && !Full(Above(t)) && InOrder(Above(t)) == InOrder(t)
  {
    var x, s := Above(t), InOrder(t);
    AboveShape(t, h);
    FlatAt(x.kids, 0);
    assert Flat([]) == [] && InOrder(x) == s;
    assert Kid(x, 0, h + 1, true);
    FilledSize(t, h);
    PowAbove(h + 1);
    assert s[h].val <= s[h + 1].val;
  }

  lemma AbovePlace(t: Tree, r: Record, h: nat)
    requires Body(t, h) && Full(t)
    ensures Body(Above(t), h + 1) && !Full(Above(t)) && Place(Above(t), r, h + 1) == RootPlace(t, r, h)
  {
    AboveShape(t, h);
    HalvesShape(t, h);
    var d := Descend(Above(t), r, h + 1);
    assert d.node.kids == NewRoot(t).kids;
  }

  /** `s'` is `s` with `r` at place `p`, and equal records follow there exactly if `tie`. */
  ghost predicate PlacedAt(s: seq<Record>, s': seq<Record>, r: Record, p: nat, tie: bool) {
    p <= |s| && s' == InsertAt(s, p, r) && Sorted(s') && (EqualAfter(s, p, r) <==> tie)
  }

  lemma PlaceInFull(t: Tree, r: Record, h: nat) returns (p: nat)
    requires Ordered(t, h, true) && Full(t)
    ensures Body(Above(t), h + 1) && !Full(Above(t))
    ensures PlacedAt(InOrder(t), InOrder(InsertFull(t, r, h)), r, p, TieBelow(Above(t), r, h + 1))
  {
    p := InsertFullOrdered(t, r, h);
    AbovePlace(t, r, h);
    EqualInRoot(t, r, h, p);
  }

  lemma EqualInRoot(t: Tree, r: Record, h: nat, p: nat)
    requires Ordered(t, h, true) && Full(t) && Body(Above(t), h + 1) && !Full(Above(t))
    requires p == Place(Above(t), r, h + 1)
    ensures EqualAfter(InOrder(t), p, r) <==> TieBelow(Above(t), r, h + 1)
  {
    AboveOrdered(t, h);
    EqualBelow(Above(t), r, h + 1, true);
  }

  lemma PlaceInRoom(t: Tree, r: Record, h: nat) returns (p: nat)
    requires Ordered(t, h, true) && !Full(t)
    ensures PlacedAt(InOrder(t), InOrder(InsertNonFull(t, r, h)), r, p, TieBelow(t, r, h))
  {
    p := InsertNonFullOrdered(t, r, h, true);
    EqualBelow(t, r, h, true);
  }

  lemma PlaceOf(x: Index, r: Record) returns (p: nat)
    requires Invariant(x)
    ensures PlacedAt(InOrder(x.root), InOrder(Insert(x, r).root), r, p, Tie(x, r))
  {
    if Full(x.root) {
      p := PlaceInFull(x.root, r, x.level);
    } else {
      p := PlaceInRoom(x.root, r, x.level);
    }
  }

  /** The last place that keeps the records sorted. */
  lemma LastPlace(s: seq<Record>, p: nat, r: Record)
    requires Sorted(s) && p <= |s| && Sorted(InsertAt(s, p, r))
    ensures p <= UpperIndex(s, r.val)
    ensures p == UpperIndex(s, r.val) <==> !EqualAfter(s, p, r)
  {
    var s', m := InsertAt(s, p, r), UpperIndex(s, r.val);
    assert s'[p] == r;
    assert p > 0 ==> s'[p - 1] == s[p - 1];
    if p < m { assert s[p].val <= r.val; }
  }

  /**
    bt_insert puts a record behind all records that are not above it, exactly if no node that it
    cuts on its way has the record's own key as the first of its upper half.
   */
  lemma InsertStable(x: Index, r: Record)
    requires Invariant(x)
    ensures var s, s' := InOrder(x.root), InOrder(Insert(x, r).root);
            && (!Tie(x, r) ==> s' == InsertAt(s, UpperIndex(s, r.val), r))
            && (r !in s ==> (s' == InsertAt(s, UpperIndex(s, r.val), r) <==> !Tie(x, r)))
  {
    var s := InOrder(x.root);
    var m := UpperIndex(s, r.val);
    var p := PlaceOf(x, r);
    LastPlace(s, p, r);
    if p < m && r !in s {
      assert InsertAt(s, p, r)[p] == r && InsertAt(s, m, r)[p] == s[p];
    }
  }

  /** 170 equal values: the last row ends up in front of some of its equals. */
  lemma EqualsOutOfOrder(v: seq<int>)
    requires |v| == 170 && forall i :: 0 <= i < 170 ==> v[i] == v[0]
    ensures InOrder(Bulk(v, 170).root) != Entries(v, 170)
  {
    var x, r := Bulk(v, 169), Record(169, v[169]);
    BulkAscending(v, 169);
    BulkInvariant(v, 169);
    var s := Entries(v, 169);
    assert x.root.recs[84] == s[84] && TieHere(Above(x.root), r);
    assert UpperIndex(s, r.val) == 169;
    assert InsertAt(s, 169, r) == Entries(v, 170);
    InsertStable(x, r);
  }
}
