/**
  The ordering invariant of the B+-tree and its proof through splits and insertions.

  The comment at src/btree.c:95-96 says that every separator equals the first record of its
  child. That is true of every separator except the first ones along the leftmost path: a new
  minimum inserted right after a root split leaves the first separator of the new root too
  large. What keeps the tree ordered is a count: such a separator, `h` levels above the leaves,
  never exceeds the record number `h` of its subtree, while its child holds far more than `h`.
 */
module BTreeOrder {
  import opened Records
  import opened BTreeModel

  // ---------- Concatenations ----------

  lemma {:induction false} FlatConcat(a: seq<Tree>, b: seq<Tree>)
    ensures Flat(a + b) == Flat(a) + Flat(b)
  {
    if a == [] {
      assert a + b == b;
    } else {
      assert (a + b)[1..] == a[1..] + b;
      FlatConcat(a[1..], b);
    }
  }

  lemma FlatParts(a: seq<Tree>, b: seq<Tree>, c: seq<Tree>)
    ensures Flat(a + b + c) == Flat(a) + Flat(b) + Flat(c)
  {
    FlatConcat(a + b, c);
    FlatConcat(a, b);
  }

  lemma FlatPair(x: Tree, y: Tree)
    ensures Flat([x, y]) == InOrder(x) + InOrder(y)
  {
    assert [x, y][1..] == [y] && [y][1..] == [];
    assert Flat([y]) == InOrder(y);
  }

  lemma FlatAt(kids: seq<Tree>, k: nat)
    requires k < |kids|
    ensures Flat(kids) == Flat(kids[..k]) + InOrder(kids[k]) + Flat(kids[k + 1..])
  {
    assert kids == kids[..k] + kids[k..];
    FlatConcat(kids[..k], kids[k..]);
  }

  // ---------- Occupancy in records ----------

  function Pow(b: nat, e: nat): nat {
    if e == 0 then 1 else b * Pow(b, e - 1)
  }

  lemma {:induction false} PowAbove(h: nat)
    ensures h < Pow(84, h)
  {
    if h > 0 { PowAbove(h - 1); }
  }

  /** A subtree of a non-root node holds at least 84 to the power of its number of levels. */
  lemma {:induction false} FilledSize(t: Tree, h: nat)
    requires Filled(t, h)
    ensures |InOrder(t)| >= Pow(84, h + 1)
    decreases h, 1
  {
    if h > 0 {
      forall k | 0 <= k < |t.kids| ensures Filled(t.kids[k], h - 1) {}
      FlatSize(t.kids, h - 1);
      MulMono(84, |t.kids|, Pow(84, h));
    }
  }

  lemma MulMono(a: nat, b: nat, c: nat)
    requires a <= b
    ensures a * c <= b * c
  {
  }

  lemma {:induction false} FlatSize(kids: seq<Tree>, h: nat)
    requires forall k :: 0 <= k < |kids| ==> Filled(kids[k], h)
    ensures |Flat(kids)| >= |kids| * Pow(84, h + 1)
    decreases h, 2, |kids|
  {
    if kids != [] {
      FilledSize(kids[0], h);
      FlatSize(kids[1..], h);
      MulSucc(|kids|, Pow(84, h + 1));
    }
  }

  lemma MulSucc(a: nat, c: nat)
    requires a > 0
    ensures a * c == c + (a - 1) * c
  {
  }

  // ---------- The invariant ----------

  /** The first separator of a node on the leftmost path: not below the smallest record, not above record `h`. */
  ghost predicate FirstBound(t: Tree, h: nat)
    requires |t.recs| > 0
  {
    var s := InOrder(t);
    h < |s| && s[0].val <= t.recs[0].val <= s[h].val
  }

  /** Everything but the bound on the first separator. `spine` marks the leftmost path. */
  ghost predicate Core(t: Tree, h: nat, spine: bool)
    ensures Core(t, h, spine) ==> Body(t, h) && Sorted(InOrder(t))
    decreases h, 1
  {
    && Body(t, h)
    && Sorted(InOrder(t))
    && (h > 0 ==> forall k :: 0 <= k < |t.kids| ==> Kid(t, k, h, spine))
  }

  /** Child `k` is ordered, and its separator is its first record (unless it may be stale). */
  ghost predicate Kid(t: Tree, k: nat, h: nat, spine: bool)
    requires h > 0 && t.Node? && k < |t.kids| == |t.recs|
    decreases h, 0
  {
    && Filled(t.kids[k], h - 1)
    && (k > 0 || !spine ==> t.recs[k] == t.kids[k].recs[0])
    && Ordered(t.kids[k], h - 1, spine && k == 0)
  }

  ghost predicate Ordered(t: Tree, h: nat, spine: bool)
    ensures Ordered(t, h, spine) ==> Body(t, h) && Sorted(InOrder(t))
    decreases h, 2
  {
    Core(t, h, spine) && (spine && h > 0 ==> FirstBound(t, h))
  }

  // ---------- What the invariant says about a node ----------

  /** Off the leftmost path a node's first separator is the first, hence smallest, record below it. */
  lemma {:induction false} FirstIsMin(t: Tree, h: nat)
    requires Ordered(t, h, false) && |t.recs| > 0
    ensures InOrder(t) != [] && InOrder(t)[0] == t.recs[0]
    decreases h
  {
    if h > 0 {
      assert Kid(t, 0, h, false);
      FirstIsMin(t.kids[0], h - 1);
    }
  }

  /** Children `a < b`: every record below `a` is at most the separator of `b`. */
  lemma BelowSeparator(t: Tree, h: nat, spine: bool, a: nat, b: nat)
    requires h > 0 && Core(t, h, spine) && a < b < |t.kids|
    ensures forall r :: r in InOrder(t.kids[a]) ==> r.val <= t.recs[b].val
  {
    var A, B := InOrder(t.kids[a]), InOrder(t.kids[b]);
    assert Kid(t, b, h, spine);
    FirstIsMin(t.kids[b], h - 1);
    FlatAt(t.kids, b);
    FlatAt(t.kids[..b], a);
    assert t.kids[..b][a] == t.kids[a];
    var p, q := |Flat(t.kids[..b][..a])|, |Flat(t.kids[..b])|;
    assert InOrder(t)[q] == B[0];
    forall r | r in A ensures r.val <= t.recs[b].val {
      var i :| 0 <= i < |A| && A[i] == r;
      assert InOrder(t)[p + i] == r;
    }
  }

  /**
    The separators of every node are sorted, the possibly stale first one included. This is the
    counting argument: record `h` still lies below child 0, so it is at most the next separator.
   */
  lemma SeparatorsSorted(t: Tree, h: nat, spine: bool)
    requires h > 0 && Ordered(t, h, spine)
    ensures Sorted(t.recs)
  {
    forall a, b | 0 <= a < b < |t.recs| ensures t.recs[a].val <= t.recs[b].val {
      BelowSeparator(t, h, spine, a, b);
      assert Kid(t, a, h, spine);
      if a > 0 || !spine {
        FirstIsMin(t.kids[a], h - 1);
      } else {
        FilledSize(t.kids[0], h - 1);
        PowAbove(h);
        FlatAt(t.kids, 0);
        assert InOrder(t)[h] == InOrder(t.kids[0])[h];
      }
    }
  }

  // ---------- Splits ----------

  lemma SortedParts(a: seq<Record>, b: seq<Record>)
    requires Sorted(a + b)
    ensures Sorted(a) && Sorted(b)
  {
    assert forall i :: 0 <= i < |a| ==> a[i] == (a + b)[i];
    assert forall i :: 0 <= i < |b| ==> b[i] == (a + b)[|a| + i];
  }

  lemma HalvesFlat(t: Tree, h: nat)
    requires Body(t, h)
    ensures InOrder(t) == InOrder(LeftHalf(t)) + InOrder(RightHalf(t))
  {
    if h > 0 {
      var m := |t.recs| / 2;
      assert t.kids == t.kids[..m] + t.kids[m..];
      FlatConcat(t.kids[..m], t.kids[m..]);
    }
  }

  lemma HalvesOrdered(t: Tree, h: nat, spine: bool)
    requires Ordered(t, h, spine) && Full(t)
    ensures Ordered(LeftHalf(t), h, spine) && Ordered(RightHalf(t), h, false)
  {
    HalvesShape(t, h);
    HalvesFlat(t, h);
    SortedParts(InOrder(LeftHalf(t)), InOrder(RightHalf(t)));
    var L, R := LeftHalf(t), RightHalf(t);
    if h > 0 {
      forall k | 0 <= k < |L.kids| ensures Kid(L, k, h, spine) { assert Kid(t, k, h, spine); }
      forall k | 0 <= k < |R.kids| ensures Kid(R, k, h, false) { assert Kid(t, |t.recs| / 2 + k, h, spine); }
    }
    if h > 0 && spine {
      FilledSize(t.kids[0], h - 1);
      PowAbove(h);
      FlatAt(L.kids, 0);
    }
  }

  /** The entries of a split node, one by one. */
  lemma SplitEntries(t: Tree, i: nat, h: nat)
    requires h > 0 && Body(t, h) && !Full(t) && 1 <= i <= |t.kids| && Full(t.kids[i - 1])
    ensures t.kids[i - 1].Node? ==> |t.kids[i - 1].kids| == |t.kids[i - 1].recs|
    ensures var s := SplitChild(t, i);
            && s.Node? && |s.kids| == |s.recs| == |t.kids| + 1
            && s.kids[i - 1] == LeftHalf(t.kids[i - 1]) && s.kids[i] == RightHalf(t.kids[i - 1])
            && s.recs[i - 1] == t.recs[i - 1] && RightHalf(t.kids[i - 1]).recs != []
            && s.recs[i] == RightHalf(t.kids[i - 1]).recs[0]
            && (forall k :: 0 <= k < i - 1 ==> s.kids[k] == t.kids[k] && s.recs[k] == t.recs[k])
            && (forall k :: i < k < |s.kids| ==> s.kids[k] == t.kids[k - 1] && s.recs[k] == t.recs[k - 1])
  {
    assert Filled(t.kids[i - 1], h - 1);
    SplitShape(t, i, h);
    HalvesShape(t.kids[i - 1], h - 1);
  }

  lemma SplitFlat(t: Tree, i: nat, h: nat)
    requires h > 0 && Body(t, h) && !Full(t) && 1 <= i <= |t.kids| && Full(t.kids[i - 1])
    ensures t.kids[i - 1].Node? ==> |t.kids[i - 1].kids| == |t.kids[i - 1].recs|
    ensures InOrder(SplitChild(t, i)) == InOrder(t)
  {
    SplitShape(t, i, h);
    var y, s := t.kids[i - 1], SplitChild(t, i);
    assert Filled(y, h - 1);
    HalvesFlat(y, h - 1);
    var L, R := LeftHalf(y), RightHalf(y);
    assert s.kids == t.kids[..i - 1] + [L, R] + t.kids[i..];
    FlatParts(t.kids[..i - 1], [L, R], t.kids[i..]);
    FlatPair(L, R);
    FlatAt(t.kids, i - 1);
  }

  lemma SplitOrdered(t: Tree, i: nat, h: nat, spine: bool)
    requires h > 0 && Core(t, h, spine) && !Full(t) && 1 <= i <= |t.kids| && Full(t.kids[i - 1])
    ensures t.kids[i - 1].Node? ==> |t.kids[i - 1].kids| == |t.kids[i - 1].recs|
    ensures Core(SplitChild(t, i), h, spine)
  {
    SplitShape(t, i, h);
    SplitFlat(t, i, h);
    SplitEntries(t, i, h);
    assert Kid(t, i - 1, h, spine);
    HalvesOrdered(t.kids[i - 1], h - 1, spine && i == 1);
    HalvesShape(t.kids[i - 1], h - 1);
    var s := SplitChild(t, i);
    forall k | 0 <= k < |s.kids| ensures Kid(s, k, h, spine) {
      if k < i - 1 { assert Kid(t, k, h, spine); }
      if k > i { assert Kid(t, k - 1, h, spine); }
    }
  }

  // ---------- Insertion ----------

  /** Only the first separator of a node on the leftmost path may be overwritten. */
  lemma LowerFirst(t: Tree, r: Record, h: nat)
    requires h > 0 && Core(t, h, true)
    ensures Core(Node(t.recs[0 := r], t.kids), h, true)
  {
    var x := Node(t.recs[0 := r], t.kids);
    assert InOrder(x) == InOrder(t);
    forall k | 0 <= k < |x.kids| ensures Kid(x, k, h, true) { assert Kid(t, k, h, true); }
    assert Core(x, h, true);
  }

  /** The descent keeps the records and all but the bound on the first separator. */
  lemma DescendCore(t: Tree, r: Record, h: nat, spine: bool)
    requires h > 0 && Ordered(t, h, spine) && !Full(t)
    requires !spine ==> t.recs[0].val <= r.val
    ensures var d := Descend(t, r, h);
            && Core(d.node, h, spine) && InOrder(d.node) == InOrder(t)
            && d.node.recs[0] == (if r.val < t.recs[0].val then r else t.recs[0])
  {
    var i := UpperIndex(t.recs, r.val);
    var x := if i == 0 then Node(t.recs[0 := r], t.kids) else t;
    var j := if i == 0 then 0 else i - 1;
    if i == 0 { LowerFirst(t, r, h); }
    assert Core(x, h, spine) && InOrder(x) == InOrder(t);
    if Full(t.kids[j]) {
      SplitOrdered(x, j + 1, h, spine);
      SplitFlat(x, j + 1, h);
      SplitEntries(x, j + 1, h);
    }
  }

  /** The chosen child is where the record belongs: between its separator and the next one. */
  lemma DescendBounds(t: Tree, r: Record, h: nat, spine: bool)
    requires h > 0 && Ordered(t, h, spine) && !Full(t)
    ensures var d := Descend(t, r, h);
            && (d.child > 0 ==> d.node.recs[d.child].val <= r.val)
            && (d.child + 1 < |d.node.kids| ==> r.val <= d.node.recs[d.child + 1].val)
  {
    SeparatorsSorted(t, h, spine);
    var i := UpperIndex(t.recs, r.val);
    var x := if i == 0 then Node(t.recs[0 := r], t.kids) else t;
    var j := if i == 0 then 0 else i - 1;
    assert Body(x, h);
    assert j + 1 < |x.recs| ==> r.val <= x.recs[j + 1].val;
    if Full(t.kids[j]) {
      SplitEntries(x, j + 1, h);
    }
  }

  /** What stands left and right of the child where a record belongs. */
  lemma AroundChild(t: Tree, k: nat, r: Record, h: nat, spine: bool)
    requires h > 0 && Core(t, h, spine) && k < |t.kids|
    requires k > 0 ==> t.recs[k].val <= r.val
    requires k + 1 < |t.kids| ==> r.val <= t.recs[k + 1].val
    ensures var A, C, B := Flat(t.kids[..k]), InOrder(t.kids[k]), Flat(t.kids[k + 1..]);
            && InOrder(t) == A + C + B
            && (forall a :: 0 <= a < |A| ==> A[a].val <= r.val)
            && (forall b :: 0 <= b < |B| ==> r.val <= B[b].val)
  {
    var A, C, B := Flat(t.kids[..k]), InOrder(t.kids[k]), Flat(t.kids[k + 1..]);
    FlatAt(t.kids, k);
    if k > 0 {
      FirstOfKid(t, k, h, spine);
    }
    if k + 1 < |t.kids| {
      FirstOfKid(t, k + 1, h, spine);
      FlatAt(t.kids[k + 1..], 0);
    }
    SortedAround(A, C, B, r);
  }

  /** Off the leftmost path a separator is the first record of its child. */
  lemma FirstOfKid(t: Tree, k: nat, h: nat, spine: bool)
    requires h > 0 && Core(t, h, spine) && 0 < k < |t.kids|
    ensures InOrder(t.kids[k]) != [] && InOrder(t.kids[k])[0] == t.recs[k]
  {
    assert Kid(t, k, h, spine);
    FirstIsMin(t.kids[k], h - 1);
  }

  lemma SortedAround(A: seq<Record>, C: seq<Record>, B: seq<Record>, r: Record)
    requires Sorted(A + C + B)
    requires A == [] || (C != [] && C[0].val <= r.val)
    requires B == [] || r.val <= B[0].val
    ensures forall a :: 0 <= a < |A| ==> A[a].val <= r.val
    ensures forall b :: 0 <= b < |B| ==> r.val <= B[b].val
  {
    var s := A + C + B;
    assert forall a :: 0 <= a < |A| ==> A[a] == s[a];
    assert forall b :: 0 <= b < |B| ==> B[b] == s[|A + C| + b];
    if C != [] { assert C[0] == s[|A|]; }
  }

  /** Putting a record into child `k`, where it belongs, inserts it into the node's records and keeps them sorted. */
  lemma ReplaceFlat(t: Tree, k: nat, c: Tree, r: Record, q: nat, h: nat, spine: bool)
    requires h > 0 && Core(t, h, spine) && k < |t.kids|
    requires q <= |InOrder(t.kids[k])| && InOrder(c) == InsertAt(InOrder(t.kids[k]), q, r)
    requires Sorted(InOrder(c))
    requires k > 0 ==> t.recs[k].val <= r.val
    requires k + 1 < |t.kids| ==> r.val <= t.recs[k + 1].val
    ensures var t', p := Node(t.recs, t.kids[k := c]), |Flat(t.kids[..k])| + q;
            && p <= |InOrder(t)|
            && InOrder(t') == InsertAt(InOrder(t), p, r) && Sorted(InOrder(t'))
  {
    var t' := Node(t.recs, t.kids[k := c]);
    FlatAt(t'.kids, k);
    assert t'.kids[..k] == t.kids[..k] && t'.kids[k + 1..] == t.kids[k + 1..];
    AroundChild(t, k, r, h, spine);
    InsertMiddle(Flat(t.kids[..k]), InOrder(t.kids[k]), Flat(t.kids[k + 1..]), q, r);
  }

  lemma ReplaceKid(t: Tree, k: nat, c: Tree, h: nat, spine: bool)
    requires h > 0 && Core(t, h, spine) && k < |t.kids| && Kid(t, k, h, spine)
    requires Filled(c, h - 1) && Ordered(c, h - 1, spine && k == 0)
    requires k > 0 || !spine ==> c.recs[0] == t.kids[k].recs[0]
    requires Sorted(InOrder(Node(t.recs, t.kids[k := c])))
    ensures Core(Node(t.recs, t.kids[k := c]), h, spine)
  {
    var t' := Node(t.recs, t.kids[k := c]);
    ReplaceShape(t, k, c, h);
    forall i | 0 <= i < |t'.kids| ensures Kid(t', i, h, spine) {
      assert Kid(t, i, h, spine);
    }
    assert Core(t', h, spine);
  }

  lemma InsertMiddle(A: seq<Record>, C: seq<Record>, B: seq<Record>, q: nat, r: Record)
    requires Sorted(A + C + B) && q <= |C| && Sorted(InsertAt(C, q, r))
    requires forall a :: 0 <= a < |A| ==> A[a].val <= r.val
    requires forall b :: 0 <= b < |B| ==> r.val <= B[b].val
    ensures A + InsertAt(C, q, r) + B == InsertAt(A + C + B, |A| + q, r)
    ensures Sorted(A + InsertAt(C, q, r) + B)
  {
    var s, c' := A + C + B, InsertAt(C, q, r);
    forall i | 0 <= i < |s| ensures if i < |A| + q then s[i].val <= r.val else r.val <= s[i].val {
      if |A| <= i < |A + C| {
        var j := i - |A|;
        assert s[i] == C[j] && c'[q] == r && C[j] == c'[if j < q then j else j + 1];
      }
    }
    InsertSorted(s, |A| + q, r);
    assert A + InsertAt(C, q, r) + B == InsertAt(s, |A| + q, r);
  }

  lemma InsertSorted(s: seq<Record>, p: nat, r: Record)
    requires Sorted(s) && p <= |s|
    requires forall i :: 0 <= i < |s| ==> if i < p then s[i].val <= r.val else r.val <= s[i].val
    ensures Sorted(InsertAt(s, p, r))
  {
    var s' := InsertAt(s, p, r);
    forall i, j | 0 <= i < j < |s'| ensures s'[i].val <= s'[j].val {
      if i != p && j != p {
        assert s'[i] == s[if i < p then i else i - 1] && s'[j] == s[if j < p then j else j - 1];
      }
    }
  }

  /** The bound on a first separator survives an insertion that lowers it to the record if that is smaller. */
  lemma BoundAfterInsert(s: seq<Record>, p: nat, r: Record, first: Record, h: nat)
    requires p <= |s| && Sorted(InsertAt(s, p, r))
    requires h < |s| && s[0].val <= first.val <= s[h].val
    ensures var s' := InsertAt(s, p, r);
            var v := if r.val < first.val then r.val else first.val;
            s'[0].val <= v <= s'[h].val
  {
    var s' := InsertAt(s, p, r);
    assert s'[p] == r;
    if p > h { assert s'[h] == s[h]; }
    if p > 0 { assert s'[0] == s[0]; } else { assert s'[1] == s[0]; }
  }

  /** `c` is the ordered node `y` with `r` added at place `q` of its records. */
  ghost predicate Grown(y: Tree, c: Tree, r: Record, q: nat, h: nat, spine: bool) {
    && Ordered(c, h, spine)
    && (!spine ==> y.recs != [] && c.recs != [] && c.recs[0] == y.recs[0])
    && q <= |InOrder(y)| && InOrder(c) == InsertAt(InOrder(y), q, r)
  }

  /** `x` is `t` after its descent towards child `k`, where `r` belongs. */
  ghost predicate Ready(t: Tree, x: Tree, k: nat, r: Record, h: nat, spine: bool) {
    && h > 0 && Ordered(t, h, spine)
    && Core(x, h, spine) && InOrder(x) == InOrder(t) && k < |x.kids|
    && t.recs != [] && x.recs[0] == (if spine && r.val < t.recs[0].val then r else t.recs[0])
    && (k > 0 ==> x.recs[k].val <= r.val)
    && (k + 1 < |x.kids| ==> r.val <= x.recs[k + 1].val)
  }

  lemma DescendReady(t: Tree, r: Record, h: nat, spine: bool)
    requires h > 0 && Ordered(t, h, spine) && !Full(t)
    requires !spine ==> t.recs[0].val <= r.val
    ensures var d := Descend(t, r, h);
            var y, onSpine := d.node.kids[d.child], spine && d.child == 0;
            && Ready(t, d.node, d.child, r, h, spine)
            && Ordered(y, h - 1, onSpine) && (!onSpine ==> y.recs[0].val <= r.val)
  {
    var d := Descend(t, r, h);
    DescendCore(t, r, h, spine);
    DescendBounds(t, r, h, spine);
    assert Kid(d.node, d.child, h, spine);
  }

  /** One level of an insertion: `c` is the grown child `k` of the descended node `x`. */
  lemma InsertOneLevel(t: Tree, x: Tree, k: nat, c: Tree, r: Record, q: nat, h: nat, spine: bool)
    returns (p: nat)
    requires Ready(t, x, k, r, h, spine)
    requires Filled(c, h - 1) && Grown(x.kids[k], c, r, q, h - 1, spine && k == 0)
    ensures p == |Flat(x.kids[..k])| + q && Grown(t, Node(x.recs, x.kids[k := c]), r, p, h, spine)
  {
    p := |Flat(x.kids[..k])| + q;
    assert Kid(x, k, h, spine);
    ReplaceFlat(x, k, c, r, q, h, spine);
    ReplaceKid(x, k, c, h, spine);
    if spine {
      BoundAfterInsert(InOrder(t), |Flat(x.kids[..k])| + q, r, t.recs[0], h);
    }
  }

  /** The place among the records of `t` that bt_insert_non_full finds. */
  function Place(t: Tree, r: Record, h: nat): nat
    requires Body(t, h) && !Full(t)
    decreases h
  {
    if t.Leaf? then UpperIndex(t.recs, r.val)
    else
      var d := Descend(t, r, h);
      |Flat(d.node.kids[..d.child])| + Place(d.node.kids[d.child], r, h - 1)
  }

  /**
    bt_insert_non_full adds exactly the record, at a place that keeps the records sorted, and
    keeps the separator invariant. Off the leftmost path it never touches the first separator.
   */
  lemma {:induction false} InsertNonFullOrdered(t: Tree, r: Record, h: nat, spine: bool) returns (p: nat)
    requires Ordered(t, h, spine) && !Full(t)
    requires !spine ==> |t.recs| > 0 && t.recs[0].val <= r.val
    ensures Grown(t, InsertNonFull(t, r, h), r, p, h, spine) && p == Place(t, r, h)
    decreases h
  {
    if h == 0 {
      p := LeafInsert(t, r, spine);
    } else {
      var d := Descend(t, r, h);
      var x, k := d.node, d.child;
      DescendReady(t, r, h, spine);
      var q := InsertNonFullOrdered(x.kids[k], r, h - 1, spine && k == 0);
      p := InsertOneLevel(t, x, k, InsertNonFull(x.kids[k], r, h - 1), r, q, h, spine);
    }
  }

  lemma LeafInsert(t: Tree, r: Record, spine: bool) returns (p: nat)
    requires Ordered(t, 0, spine) && !Full(t)
    requires !spine ==> |t.recs| > 0 && t.recs[0].val <= r.val
    ensures Grown(t, InsertNonFull(t, r, 0), r, p, 0, spine) && p == UpperIndex(t.recs, r.val)
  {
    p := UpperIndex(t.recs, r.val);
  }

  // ---------- The whole index ----------

  ghost predicate Invariant(x: Index) {
    Balanced(x) && Ordered(x.root, x.level, true)
  }

  /** The root that replaces a full one, before the record goes into one of its halves. */
  lemma NewRootOrdered(t: Tree, h: nat)
    requires Ordered(t, h, true) && Full(t)
    ensures Core(NewRoot(t), h + 1, true) && InOrder(NewRoot(t)) == InOrder(t)
    ensures Kid(NewRoot(t), 0, h + 1, true) && Kid(NewRoot(t), 1, h + 1, true)
    ensures FirstBound(NewRoot(t), h)
  {
    HalvesShape(t, h);
    HalvesFlat(t, h);
    HalvesOrdered(t, h, true);
    var top := NewRoot(t);
    FlatPair(LeftHalf(t), RightHalf(t));
    assert Kid(top, 0, h + 1, true) && Kid(top, 1, h + 1, true);
    assert Core(top, h + 1, true);
  }

  /** One more record may slip below a first separator that the insertion does not lower. */
  lemma BoundAfterRootSplit(s: seq<Record>, p: nat, r: Record, first: Record, h: nat)
    requires p <= |s| && Sorted(InsertAt(s, p, r))
    requires h < |s| && s[0].val <= first.val <= s[h].val
    ensures var s' := InsertAt(s, p, r);
            s'[0].val <= first.val <= s'[h + 1].val
  {
    var s' := InsertAt(s, p, r);
    assert p <= h ==> s'[h + 1] == s[h];
    assert p > h ==> s'[h] == s[h];
    if p > 0 { assert s'[0] == s[0]; } else { assert s'[1] == s[0]; }
  }

  /** The place that bt_insert finds through a full root. */
  function RootPlace(t: Tree, r: Record, h: nat): nat
    requires Body(t, h) && Full(t)
  {
    HalvesShape(t, h);
    var top := NewRoot(t);
    var k := if top.recs[1].val < r.val then 1 else 0;
    |Flat(top.kids[..k])| + Place(top.kids[k], r, h)
  }

  /** bt_insert on a full root. */
  lemma InsertFullOrdered(t: Tree, r: Record, h: nat) returns (p: nat)
    requires Ordered(t, h, true) && Full(t)
    ensures var t' := InsertFull(t, r, h);
            Ordered(t', h + 1, true) && p <= |InOrder(t)| && InOrder(t') == InsertAt(InOrder(t), p, r)
    ensures p == RootPlace(t, r, h)
  {
    NewRootOrdered(t, h);
    HalvesShape(t, h);
    var top := NewRoot(t);
    var k := if top.recs[1].val < r.val then 1 else 0;
    var q := InsertNonFullOrdered(top.kids[k], r, h, k == 0);
    p := InsertIntoHalf(t, r, h, k, InsertNonFull(top.kids[k], r, h), q);
  }

  lemma InsertIntoHalf(t: Tree, r: Record, h: nat, k: nat, c: Tree, q: nat) returns (p: nat)
    requires Ordered(t, h, true) && Full(t)
    requires k == if NewRoot(t).recs[1].val < r.val then 1 else 0
    requires Filled(c, h) && Grown(NewRoot(t).kids[k], c, r, q, h, k == 0)
    ensures var t' := Node(NewRoot(t).recs, NewRoot(t).kids[k := c]);
            Ordered(t', h + 1, true) && p <= |InOrder(t)| && InOrder(t') == InsertAt(InOrder(t), p, r)
    ensures p == |Flat(NewRoot(t).kids[..k])| + q
  {
    NewRootOrdered(t, h);
    var top := NewRoot(t);
    ReplaceFlat(top, k, c, r, q, h + 1, true);
    ReplaceKid(top, k, c, h + 1, true);
    p := |Flat(top.kids[..k])| + q;
    BoundAfterRootSplit(InOrder(t), p, r, top.recs[0], h);
  }

  /** `x'` is `x` with `r` added at place `p` of its records. */
  ghost predicate Added(x: Index, x': Index, r: Record, p: nat) {
    && Invariant(x')
    && p <= |InOrder(x.root)| && InOrder(x'.root) == InsertAt(InOrder(x.root), p, r)
  }

  /** bt_insert keeps the invariant and adds exactly one record, in its place. */
  lemma InsertInvariant(x: Index, r: Record) returns (p: nat)
    requires Invariant(x)
    ensures Added(x, Insert(x, r), r, p)
  {
    if Full(x.root) {
      p := InsertFullOrdered(x.root, r, x.level);
      AddedFull(x, r, p);
    } else {
      p := InsertNonFullOrdered(x.root, r, x.level, true);
      AddedRoom(x, r, p);
    }
  }

  lemma AddedFull(x: Index, r: Record, p: nat)
    requires Balanced(x) && Full(x.root) && Ordered(InsertFull(x.root, r, x.level), x.level + 1, true)
    requires p <= |InOrder(x.root)| && InOrder(InsertFull(x.root, r, x.level)) == InsertAt(InOrder(x.root), p, r)
    ensures Added(x, Insert(x, r), r, p)
  {
  }

  lemma AddedRoom(x: Index, r: Record, p: nat)
    requires Balanced(x) && !Full(x.root) && Grown(x.root, InsertNonFull(x.root, r, x.level), r, p, x.level, true)
    ensures Added(x, Insert(x, r), r, p)
  {
  }

  lemma InsertKeeps(x: Index, r: Record)
    requires Invariant(x)
    ensures Invariant(Insert(x, r))
  {
    var p := InsertInvariant(x, r);
  }

  /** The pairs (i, v[i]) that bt_insert_bulk feeds to the tree. */
  function Entries(v: seq<int>, n: nat): (s: seq<Record>)
    requires n <= |v|
    ensures |s| == n && forall i :: 0 <= i < n ==> s[i] == Record(i, v[i])
  {
    if n == 0 then [] else Entries(v, n - 1) + [Record(n - 1, v[n - 1])]
  }

  lemma InsertAtBag<T>(s: seq<T>, p: nat, x: T)
    requires p <= |s|
    ensures multiset(InsertAt(s, p, x)) == multiset(s) + multiset{x}
  {
    assert s == s[..p] + s[p..];
  }

  lemma EntriesBag(v: seq<int>, n: nat)
    requires 0 < n <= |v|
    ensures multiset(Entries(v, n)) == multiset(Entries(v, n - 1)) + multiset{Record(n - 1, v[n - 1])}
  {
    assert Entries(v, n) == Entries(v, n - 1) + [Record(n - 1, v[n - 1])];
  }

  lemma InsertBag(x: Index, r: Record)
    requires Invariant(x)
    ensures Invariant(Insert(x, r))
    ensures multiset(InOrder(Insert(x, r).root)) == multiset(InOrder(x.root)) + multiset{r}
  {
    var p := InsertInvariant(x, r);
    InsertAtBag(InOrder(x.root), p, r);
  }

  /** Whatever tree a bulk insertion starts from stays ordered and gains exactly the pairs (i, v[i]). */
  lemma {:induction false} BulkIntoBag(x: Index, v: seq<int>, n: nat)
    requires Invariant(x) && n <= |v|
    ensures Invariant(BulkInto(x, v, n))
    ensures multiset(InOrder(BulkInto(x, v, n).root)) == multiset(InOrder(x.root)) + multiset(Entries(v, n))
  {
    if n > 0 {
      BulkIntoBag(x, v, n - 1);
      BulkStepBag(BulkInto(x, v, n - 1), v, n, multiset(InOrder(x.root)));
    }
  }

  lemma BulkStepBag(y: Index, v: seq<int>, n: nat, before: multiset<Record>)
    requires 0 < n <= |v| && Invariant(y)
    requires multiset(InOrder(y.root)) == before + multiset(Entries(v, n - 1))
    ensures var z := Insert(y, Record(n - 1, v[n - 1]));
            Invariant(z) && multiset(InOrder(z.root)) == before + multiset(Entries(v, n))
  {
    InsertBag(y, Record(n - 1, v[n - 1]));
    EntriesBag(v, n);
  }

  /** A tree built from a column holds each value of it once, at its position, in value order. */
  lemma BulkInvariant(v: seq<int>, n: nat)
    requires n <= |v|
    ensures Invariant(Bulk(v, n))
    ensures multiset(InOrder(Bulk(v, n).root)) == multiset(Entries(v, n))
  {
    BulkIntoBag(Index(Leaf([]), 0), v, n);
  }

  /** Any run of bt_insert calls on an empty tree. */
  function Run(rs: seq<Record>): (x: Index)
    ensures Balanced(x)
  {
    if rs == [] then Index(Leaf([]), 0) else Insert(Run(rs[..|rs| - 1]), rs[|rs| - 1])
  }

  lemma RunStep(rs: seq<Record>, r: Record)
    ensures Run(rs + [r]) == Insert(Run(rs), r)
  {
    assert (rs + [r])[..|rs|] == rs;
  }

  /** Every reachable tree is ordered and holds exactly the inserted records. */
  lemma {:induction false} RunInvariant(rs: seq<Record>)
    ensures Invariant(Run(rs)) && multiset(InOrder(Run(rs).root)) == multiset(rs)
  {
    if rs == [] {
      BulkInvariant([], 0);
    } else {
      var before, r := rs[..|rs| - 1], rs[|rs| - 1];
      assert rs == before + [r];
      RunStep(before, r);
      RunInvariant(before);
      InsertBag(Run(before), r);
    }
  }

  lemma {:induction false} BulkIsRun(v: seq<int>, n: nat)
    requires n <= |v|
    ensures Bulk(v, n) == Run(Entries(v, n))
  {
    if n > 0 {
      BulkIsRun(v, n - 1);
      RunStep(Entries(v, n - 1), Record(n - 1, v[n - 1]));
      assert Entries(v, n) == Entries(v, n - 1) + [Record(n - 1, v[n - 1])];
    }
  }

  /** A tree with `h` internal levels holds at least 2 * 84^h records: its height is logarithmic. */
  lemma RecordsByLevel(x: Index)
    requires Balanced(x) && x.level > 0
    ensures |InOrder(x.root)| >= 2 * Pow(84, x.level)
    ensures x.level == 1 ==> |InOrder(x.root)| >= 168
    ensures x.level == 2 ==> |InOrder(x.root)| >= 14112
    ensures x.level == 3 ==> |InOrder(x.root)| >= 1185408
  {
    FlatSize(x.root.kids, x.level - 1);
    MulMono(2, |x.root.kids|, Pow(84, x.level));
    assert Pow(84, 1) == 84 && Pow(84, 2) == 7056 && Pow(84, 3) == 592704;
  }
}
