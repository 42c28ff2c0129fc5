/** The sorting half of src/vector.c: positions that sort a vector, and gathering by positions. */
module Sorting {
  import opened Utils
  import opened Vectors
  import opened Bags

  /** 0, 1, ..., n - 1. */
  function Iota(n: nat): (s: seq<int>)
    ensures |s| == n && forall i :: 0 <= i < n ==> s[i] == i
  {
    if n == 0 then [] else Iota(n - 1) + [n - 1]
  }

  ghost predicate Positions(p: seq<int>, n: nat) {
    multiset(p) == multiset(Iota(n))
  }

  predicate InBounds(p: seq<int>, n: nat) {
    forall k :: 0 <= k < |p| ==> 0 <= p[k] < n
  }

  lemma PositionsInBounds(p: seq<int>, n: nat)
    requires Positions(p, n)
    ensures |p| == n && InBounds(p, n)
  {
    assert |multiset(p)| == |multiset(Iota(n))|;
    forall k | 0 <= k < |p| ensures 0 <= p[k] < n {
      assert p[k] in multiset(p);
      assert p[k] in Iota(n);
    }
  }

  /** `s` read at the positions `p`. */
  function Gather<T>(s: seq<T>, p: seq<int>): (r: seq<T>)
    requires InBounds(p, |s|)
    ensures |r| == |p| && forall k :: 0 <= k < |p| ==> r[k] == s[p[k]]
  {
    seq(|p|, k requires 0 <= k < |p| => s[p[k]])
  }

  /** Gathering along a permutation of the positions only reorders. */
  lemma GatherBag<T>(s: seq<T>, p: seq<int>)
    requires Positions(p, |s|)
    ensures InBounds(p, |s|) && multiset(Gather(s, p)) == multiset(s)
  {
    PositionsInBounds(p, |s|);
    var f := (i: int) => if 0 <= i < |s| then [s[i]] else [];
    GatherIsFlatMap(s, p, f);
    GatherIsFlatMap(s, Iota(|s|), f);
    FlatMapBag(p, Iota(|s|), f);
    assert Gather(s, Iota(|s|)) == s;
  }

  lemma {:induction false} GatherIsFlatMap<T>(s: seq<T>, p: seq<int>, f: int -> seq<T>)
    requires InBounds(p, |s|)
    requires forall i :: 0 <= i < |s| ==> f(i) == [s[i]]
    ensures Gather(s, p) == FlatMap(p, f)
  {
    if p != [] {
      GatherIsFlatMap(s, p[1..], f);
      assert Gather(s, p) == [s[p[0]]] + Gather(s, p[1..]);
    }
  }

  // ---------- qsort ----------

  /** `p` lists positions of `aux` in ascending order of what they point to (compare_pos). */
  predicate AscendingAt(aux: seq<int>, p: seq<int>) {
    InBounds(p, |aux|) && forall i, j :: 0 <= i < j < |p| ==> aux[p[i]] <= aux[p[j]]
  }

  predicate Sorts(aux: seq<int>, p: seq<int>, q: seq<int>) {
    multiset(q) == multiset(p) && AscendingAt(aux, q)
  }

  function PlaceOf(aux: seq<int>, q: seq<int>, x: int): (k: nat)
    requires InBounds(q, |aux|) && 0 <= x < |aux|
    ensures k <= |q|
    ensures forall i :: 0 <= i < k ==> aux[q[i]] < aux[x]
    ensures k < |q| ==> aux[x] <= aux[q[k]]
  {
    if q == [] || aux[x] <= aux[q[0]] then 0
    else
      var k := PlaceOf(aux, q[1..], x);
      assert forall i :: 0 < i < 1 + k ==> q[i] == q[1..][i - 1];
      1 + k
  }

  /** Some order that sorts always exists. */
  lemma {:induction false} SortExists(aux: seq<int>, p: seq<int>) returns (q: seq<int>)
    requires InBounds(p, |aux|)
    ensures Sorts(aux, p, q)
  {
    if p == [] {
      q := [];
    } else {
      var r := SortExists(aux, p[1..]);
      var k := PlaceOf(aux, r, p[0]);
      q := r[..k] + [p[0]] + r[k..];
      InsertAscending(aux, r, k, p[0]);
      InsertBag(r, k, p[0]);
      assert p == [p[0]] + p[1..];
    }
  }

  lemma InsertBag(r: seq<int>, k: nat, x: int)
    requires k <= |r|
    ensures multiset(r[..k] + [x] + r[k..]) == multiset{x} + multiset(r)
  {
    assert r == r[..k] + r[k..];
  }

  lemma InsertAscending(aux: seq<int>, r: seq<int>, k: nat, x: int)
    requires AscendingAt(aux, r) && k <= |r| && 0 <= x < |aux|
    requires forall i :: 0 <= i < k ==> aux[r[i]] < aux[x]
    requires k < |r| ==> aux[x] <= aux[r[k]]
    ensures AscendingAt(aux, r[..k] + [x] + r[k..])
  {
    var q := r[..k] + [x] + r[k..];
    forall i | 0 <= i < |q|
      ensures 0 <= q[i] < |aux| && (i < k ==> aux[q[i]] <= aux[x]) && (i > k ==> aux[x] <= aux[q[i]])
    {
      if i < k { assert q[i] == r[i]; }
      if i > k { assert q[i] == r[i - 1]; }
    }
    forall i, j | 0 <= i < j < |q| ensures aux[q[i]] <= aux[q[j]] {
      if i != k && j != k {
        assert q[i] == r[if i < k then i else i - 1] && q[j] == r[if j < k then j else j - 1];
      }
    }
  }

  lemma SameLength(q: seq<int>, p: seq<int>)
    requires multiset(q) == multiset(p)
    ensures |q| == |p|
  {
    assert |multiset(q)| == |q| && |multiset(p)| == |p|;
  }

  /** qsort under compare_pos: any sorting order whatever, with no promise about equal values. */
  method QSort(buf: array<int>, n: nat, aux: seq<int>)
    requires n <= buf.Length && InBounds(buf[..n], |aux|)
    modifies buf
    ensures Sorts(aux, old(buf[..n]), buf[..n])
  {
    var before := buf[..n];
    ghost var some := SortExists(aux, before);
    var q: seq<int> :| Sorts(aux, before, q);
    assert Sorts(aux, before, q);
    SameLength(q, before);
    forall k | 0 <= k < n { buf[k] := q[k]; }
    assert buf[..n] == q;
  }

  // ---------- vector.c ----------

  /** get_sorted_positions: positions fit the C int that compare_pos reads. */
  method GetSortedPositions(v: Vector) returns (ret: Vector)
    requires v.Valid() && v.length <= 0x8000_0000
    ensures fresh(ret) && fresh(ret.buf) && ret.Valid() && ret.length == v.length
    ensures Positions(ret.Contents(), v.length) && AscendingAt(v.Contents(), ret.Contents())
  {
    ret := Duplicate(v);
    var j := 0;
    while j < v.length
      invariant j <= v.length == ret.length && ret.Valid() && fresh(ret) && fresh(ret.buf)
      invariant ret.buf[..j] == Iota(v.length)[..j]
    {
      ret.buf[j] := j;
      j := j + 1;
    }
    assert ret.buf[..ret.length] == Iota(v.length);
    QSort(ret.buf, ret.length, v.Contents());
  }

  /** sort_vector_from_positions: gathers in place through a copy. */
  method SortVectorFromPositions(v: Vector, positions: Vector)
    requires v.Valid() && positions.Valid() && v != positions && v.buf != positions.buf
    requires v.length == positions.length && InBounds(positions.Contents(), v.length)
    modifies v.buf
    ensures v.Valid() && v.Contents() == Gather(old(v.Contents()), positions.Contents())
  {
    ghost var s, p := v.Contents(), positions.Contents();
    var tmp := new int[v.length];
    forall k | 0 <= k < v.length { tmp[k] := v.buf[k]; }
    assert tmp[..] == s;
    var i := 0;
    while i < v.length
      invariant i <= v.length == |s| == |p| && tmp[..] == s && positions.Contents() == p
      invariant forall k :: 0 <= k < i ==> v.buf[k] == s[p[k]]
    {
      var j := positions.buf[i];
      assert j == p[i];
      v.buf[i] := tmp[j];
      i := i + 1;
    }
  }

  /** sort_vector: sorts `v` and returns where each value came from. */
  method SortVector(v: Vector) returns (ret: Vector)
    requires v.Valid() && v.length <= 0x8000_0000
    modifies v.buf
    ensures fresh(ret) && fresh(ret.buf) && ret.Valid() && v.Valid()
    ensures ret.length == v.length && Positions(ret.Contents(), v.length) && InBounds(ret.Contents(), v.length)
    ensures v.Contents() == Gather(old(v.Contents()), ret.Contents()) && Ascending(v.Contents())
  {
    ret := GetSortedPositions(v);
    PositionsInBounds(ret.Contents(), v.length);
    SortVectorFromPositions(v, ret);
  }
}
