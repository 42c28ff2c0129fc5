/** src/sorted.c: a sorted copy of a column with the positions its values came from. */
module SortedIndexes {
  import opened Utils
  import opened Vectors
  import opened Bags
  import opened Sorting
  import opened Scans

  class SortedIndex {
    var data: Vector
    var positions: Vector
    ghost var column: seq<int>

    /** `positions` is a permutation of the rows and `data` is the column read along it, ascending. */
    ghost predicate Valid()
      reads this, data, data.buf, positions, positions.buf
    {
      && data.Valid() && positions.Valid()
      && Positions(positions.Contents(), |column|) && InBounds(positions.Contents(), |column|)
      && data.Contents() == Gather(column, positions.Contents()) && Ascending(data.Contents())
    }

    ghost function Repr(): set<object>
      reads this, data, positions
    {
      {this, data, data.buf, positions, positions.buf}
    }

    constructor (v: Vector)
      requires v.Valid() && v.length <= 0x8000_0000
      ensures Valid() && column == v.Contents()
      ensures fresh(data) && fresh(data.buf) && fresh(positions) && fresh(positions.buf)
    {
      var d, p := CopySorted(v);
      data, positions, column := d, p, v.Contents();
    }

    /**
      select_one_sorted: both bounds included; a reordering of what a scan over [low, high + 1)
      finds, ordered by value. A negative result length gives an empty vector without room.
     */
    method Select(low: int, high: int) returns (ret: Vector)
      requires Valid() && data.length <= 0x4000_0000
      ensures fresh(ret) && fresh(ret.buf) && ret.Readable()
      ensures multiset(ret.Contents()) == multiset(Scan(column, low, high + 1, 0, |column|))
      ensures AscendingAt(column, ret.Contents())
      ensures ret.maxLength == 0 <==> CountLess(data.Contents(), low) > CountAtMost(data.Contents(), high)
    {
      var lp := BinarySearchLeft(data.buf, low, data.length);
      var hp := BinarySearchRight(data.buf, high, data.length);
      ghost var d := data.Contents();
      assert forall k :: 0 <= k < |d| ==> d[k] == data.buf[k];
      BlockInRange(column, positions.Contents(), d, low, high, lp, if lp <= hp then hp else lp);
      ret := CopyRange(positions, lp, hp);
    }
  }

  /** create_sorted_index; `added` are its objects. */
  method CreateSortedIndex(v: Vector) returns (i: SortedIndex, ghost added: set<object>)
    requires v.Valid() && v.length <= 0x8000_0000
    ensures i.Valid() && i.column == v.Contents() && i.Repr() == added && fresh(added)
  {
    i := new SortedIndex(v);
    added := {i, i.data, i.data.buf, i.positions, i.positions.buf};
  }

  /** The two vectors of create_sorted_index: the sorted copy and where its values came from. */
  method CopySorted(v: Vector) returns (d: Vector, p: Vector)
    requires v.Valid() && v.length <= 0x8000_0000
    ensures fresh(d) && fresh(d.buf) && fresh(p) && fresh(p.buf) && d.Valid() && p.Valid()
    ensures Positions(p.Contents(), v.length) && InBounds(p.Contents(), v.length)
    ensures d.Contents() == Gather(v.Contents(), p.Contents()) && Ascending(d.Contents())
  {
    d := Duplicate(v);
    p := SortVector(d);
  }

  /** The loop of select_one_sorted between both search results. */
  method CopyRange(positions: Vector, lp: nat, hp: nat) returns (ret: Vector)
    requires positions.Readable() && lp <= positions.length <= 0x4000_0000 && hp <= positions.length
    ensures fresh(ret) && fresh(ret.buf) && ret.Readable() && (ret.maxLength == 0 <==> hp < lp)
    ensures ret.Contents() == positions.Contents()[lp..if lp <= hp then hp else lp]
  {
    ret := new Vector(hp as int - lp as int);
    ghost var p := positions.Contents();
    var i := lp;
    while i < hp
      invariant lp <= i <= |p| && (lp <= hp ==> i <= hp && ret.Valid()) && (hp < lp ==> ret.maxLength == 0 && i == lp)
      invariant fresh(ret) && fresh(ret.buf) && ret.Readable() && positions.Readable()
      invariant positions.Contents() == p && ret.Contents() == p[lp..i]
    {
      assert positions.buf[i] == p[i];
      var at := ret.Insert(positions.buf[i]);
      i := i + 1;
    }
  }

  lemma {:induction false} ScanIsFlatMap(s: seq<int>, l: int, h: int, n: nat, f: int -> seq<int>)
    requires n <= |s|
    requires forall i :: 0 <= i < |s| ==> f(i) == if l <= s[i] < h then [i] else []
    ensures Scan(s, l, h, 0, n) == FlatMap(Iota(n), f)
  {
    if n > 0 {
      ScanIsFlatMap(s, l, h, n - 1, f);
      FlatMapConcat(Iota(n - 1), [n - 1], f);
      assert [n - 1][1..] == [] && FlatMap([n - 1], f) == f(n - 1);
    }
  }

  lemma {:induction false} FlatMapBlock(p: seq<int>, lo: nat, hi: nat, n: nat, f: int -> seq<int>)
    requires lo <= hi <= |p| && n <= |p|
    requires forall k :: 0 <= k < |p| ==> f(p[k]) == if lo <= k < hi then [p[k]] else []
    ensures FlatMap(p[..n], f) == if n <= lo then [] else p[lo..if n < hi then n else hi]
  {
    if n > 0 {
      FlatMapBlock(p, lo, hi, n - 1, f);
      FlatMapLast(p, n, f);
    }
  }

  lemma FlatMapLast(p: seq<int>, n: nat, f: int -> seq<int>)
    requires 0 < n <= |p|
    ensures FlatMap(p[..n], f) == FlatMap(p[..n - 1], f) + f(p[n - 1])
  {
    assert p[..n] == p[..n - 1] + [p[n - 1]];
    FlatMapConcat(p[..n - 1], [p[n - 1]], f);
    assert [p[n - 1]][1..] == [] && FlatMap([p[n - 1]], f) == f(p[n - 1]);
  }

  lemma BlockIsFlatMap(p: seq<int>, lo: nat, hi: nat, f: int -> seq<int>)
    requires lo <= hi <= |p|
    requires forall k :: 0 <= k < |p| ==> f(p[k]) == if lo <= k < hi then [p[k]] else []
    ensures FlatMap(p, f) == p[lo..hi]
  {
    FlatMapBlock(p, lo, hi, |p|, f);
    assert p[..|p|] == p;
  }

  /** The block of positions between both searches holds exactly the rows a scan finds. */
  lemma BlockIsScan(s: seq<int>, p: seq<int>, l: int, h: int, lo: nat, hi: nat)
    requires Positions(p, |s|) && InBounds(p, |s|) && lo <= hi <= |p|
    requires forall k :: 0 <= k < |p| ==> (l <= s[p[k]] < h <==> lo <= k < hi)
    ensures multiset(p[lo..hi]) == multiset(Scan(s, l, h, 0, |s|))
  {
    var f := (i: int) => if 0 <= i < |s| && l <= s[i] < h then [i] else [];
    ScanIsFlatMap(s, l, h, |s|, f);
    BlockIsFlatMap(p, lo, hi, f);
    FlatMapBag(p, Iota(|s|), f);
  }

  lemma BlockInRange(s: seq<int>, p: seq<int>, d: seq<int>, low: int, high: int, lo: nat, hi: nat)
    requires Positions(p, |s|) && InBounds(p, |s|) && d == Gather(s, p) && Ascending(d) && lo <= hi <= |d|
    requires forall k :: 0 <= k < lo ==> d[k] < low
    requires forall k :: lo <= k < |d| ==> d[k] >= low
    requires forall k :: lo <= k < hi ==> d[k] <= high
    requires forall k :: hi <= k < |d| ==> d[k] > high || d[k] < low
    ensures multiset(p[lo..hi]) == multiset(Scan(s, low, high + 1, 0, |s|))
    ensures AscendingAt(s, p[lo..hi])
  {
    forall k | 0 <= k < |p| ensures low <= s[p[k]] < high + 1 <==> lo <= k < hi {
      assert s[p[k]] == d[k];
    }
    BlockIsScan(s, p, low, high + 1, lo, hi);
    BlockAscends(s, p, d, lo, hi);
  }

  lemma BlockAscends(s: seq<int>, p: seq<int>, d: seq<int>, lo: nat, hi: nat)
    requires InBounds(p, |s|) && d == Gather(s, p) && Ascending(d) && lo <= hi <= |p|
    ensures AscendingAt(s, p[lo..hi])
  {
    var b := p[lo..hi];
    forall i | 0 <= i < |b| ensures b[i] == p[lo + i] && s[b[i]] == d[lo + i] {
    }
  }
}
