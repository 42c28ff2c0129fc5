/** create_btree_index, and why selecting through the index answers the same question as scanning the column. */
module IndexBuild {
  import opened Records
  import opened BTreeModel
  import opened BTreeOrder
  import opened BTreeHeap
  import opened BTreeIndex
  import opened BTreeSelect
  import opened Vectors
  import opened Bags
  import opened Scans

  /** What bt_insert_bulk has built from `x` after `n` values of the column. */
  ghost predicate Building(tree: BTree, v: Vector, x: Index, n: nat)
    reads tree, Objs(tree.layout), v, v.buf
  {
    && tree.Valid() && v.Readable() && n <= v.length && Balanced(x)
    && v !in Objs(tree.layout) && v.buf !in Objs(tree.layout)
    && tree.index == BulkInto(x, v.Contents(), n)
  }

  method InsertNext(tree: BTree, v: Vector, i: nat, ghost x: Index) returns (ghost added: set<object>)
    requires Building(tree, v, x, i) && i < v.length
    modifies tree, Objs(tree.layout)
    ensures Building(tree, v, x, i + 1) && v.length == old(v.length) && v.Contents() == old(v.Contents())
    ensures Objs(tree.layout) <= old(Objs(tree.layout)) + added && fresh(added)
  {
    ghost var s := v.Contents();
    assert v.buf[i] == s[i];
    added := tree.Insert(Record(i, v.buf[i]));
    assert v.Contents() == s;
  }

  /** bt_insert_bulk. */
  method InsertBulk(tree: BTree, v: Vector) returns (ghost added: set<object>)
    requires tree.Valid() && v.Readable() && v !in Objs(tree.layout) && v.buf !in Objs(tree.layout)
    modifies tree, Objs(tree.layout)
    ensures tree.Valid() && tree.index == BulkInto(old(tree.index), v.Contents(), v.length)
    ensures Objs(tree.layout) <= old(Objs(tree.layout)) + added && fresh(added)
  {
    added := {};
    ghost var x := tree.index;
    var i := 0;
    while i < v.length
      invariant i <= v.length && Building(tree, v, x, i)
      invariant Objs(tree.layout) <= old(Objs(tree.layout)) + added && fresh(added)
    {
      ghost var more := InsertNext(tree, v, i, x);
      added := added + more;
      i := i + 1;
    }
  }

  /** create_btree_index. */
  method CreateBtreeIndex(v: Vector) returns (tree: BTree)
    requires v.Readable()
    ensures fresh(tree) && fresh(Objs(tree.layout))
    ensures tree.Valid() && tree.index == Bulk(v.Contents(), v.length)
  {
    tree := new BTree();
    ghost var first := Objs(tree.layout);
    ghost var added := InsertBulk(tree, v);
    assert Objs(tree.layout) <= first + added;
  }

  // ---------- The index against the scan ----------

  lemma HitsStep(s: seq<Record>, r: Record, low: int, high: int)
    ensures Hits(s + [r], low, high) == Hits(s, low, high) + Hit(r, low, high)
  {
    assert (s + [r])[..|s|] == s;
  }

  /** The pairs of a column filtered by value are the rows a scan reports. */
  lemma {:induction false} HitsOfEntries(v: seq<int>, low: int, high: int, n: nat)
    requires n <= |v|
    ensures Hits(Entries(v, n), low, high) == Scan(v, low, high, 0, n)
  {
    if n > 0 {
      HitsOfEntries(v, low, high, n - 1);
      var before, r := Entries(v, n - 1), Record(n - 1, v[n - 1]);
      HitsStep(before, r, low, high);
      assert Hits(Entries(v, n), low, high) == Hits(before, low, high) + Hit(r, low, high) by {
        assert Entries(v, n) == before + [r];
      }
    }
  }

  function Hit(r: Record, low: int, high: int): seq<int> {
    if InRange(r, low, high) then [r.pos] else []
  }

  ghost predicate Reports(f: Record -> seq<int>, low: int, high: int) {
    forall r: Record :: f(r) == Hit(r, low, high)
  }

  lemma {:induction false} HitsIsFlatMap(s: seq<Record>, low: int, high: int, f: Record -> seq<int>)
    requires Reports(f, low, high)
    ensures Hits(s, low, high) == FlatMap(s, f)
  {
    if s != [] {
      HitsIsFlatMap(s[1..], low, high, f);
      HitsConcat([s[0]], s[1..], low, high);
      assert s == [s[0]] + s[1..] && [s[0]][..0] == [];
    }
  }

  /** Records in another order have the same hits in another order. */
  lemma HitsBag(s: seq<Record>, t: seq<Record>, low: int, high: int)
    requires multiset(s) == multiset(t)
    ensures multiset(Hits(s, low, high)) == multiset(Hits(t, low, high))
  {
    var f := (r: Record) => Hit(r, low, high);
    assert Reports(f, low, high);
    HitsIsFlatMap(s, low, high, f);
    HitsIsFlatMap(t, low, high, f);
    FlatMapBag(s, t, f);
  }

  /** The values at the reported positions never decrease. */
  ghost predicate ByValue(v: seq<int>, p: seq<int>) {
    && (forall k :: 0 <= k < |p| ==> 0 <= p[k] < |v|)
    && forall i, j :: 0 <= i < j < |p| ==> v[p[i]] <= v[p[j]]
  }

  /** The hits of sorted records that each carry the position of their value. */
  lemma {:induction false} HitsByValue(s: seq<Record>, v: seq<int>, low: int, high: int)
    requires Sorted(s)
    requires forall r :: r in s ==> 0 <= r.pos < |v| && v[r.pos] == r.val
    ensures ByValue(v, Hits(s, low, high))
    ensures forall k :: 0 <= k < |Hits(s, low, high)| ==> s != [] && v[Hits(s, low, high)[k]] <= s[|s| - 1].val
  {
    if s != [] {
      var n := |s| - 1;
      assert forall r :: r in s[..n] ==> r in s;
      HitsByValue(s[..n], v, low, high);
    }
  }

  /**
    The index refines the scan: for every column and all bounds, crossed or not, the records of
    the tree built from it that fall in the range are the rows a full scan reports, by value.
   */
  lemma IndexRefinesScan(v: seq<int>, low: int, high: int)
    ensures var hits := Hits(InOrder(Bulk(v, |v|).root), low, high);
            && multiset(hits) == multiset(Scan(v, low, high, 0, |v|))
            && ByValue(v, hits)
  {
    var s := InOrder(Bulk(v, |v|).root);
    BulkInvariant(v, |v|);
    HitsBag(s, Entries(v, |v|), low, high);
    HitsOfEntries(v, low, high, |v|);
    forall r | r in s ensures 0 <= r.pos < |v| && v[r.pos] == r.val {
      assert r in multiset(s);
      assert r in Entries(v, |v|);
    }
    HitsByValue(s, v, low, high);
  }

  /** create_btree_index, then select_one_btree, beside select_one_unsorted over all of the column. */
  method SelectBothWays(v: Vector, low: int, high: int) returns (indexed: Vector, scanned: Vector)
    requires v.Valid() && v.length <= 0x7FFF_FFFF
    ensures indexed.Valid() && scanned.Valid()
    ensures multiset(indexed.Contents()) == multiset(scanned.Contents())
    ensures ByValue(v.Contents(), indexed.Contents())
    ensures scanned.Contents() == Scan(v.Contents(), low, high, 0, v.length)
  {
    ghost var s := v.Contents();
    var tree := CreateBtreeIndex(v);
    indexed := SelectOneBtree(tree, low, high);
    IndexRefinesScan(s, low, high);
    scanned := SelectOneUnsorted(v, low, high, -1, -1, null);
  }
}
