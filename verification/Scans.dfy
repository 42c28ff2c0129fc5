/** The scan operators of src/cs165_api.c: block scan, select on fetched values, primary select, fetch. */
module Scans {
  import opened Utils
  import opened Vectors

  const MIN_DATA: int := -0x8000_0000
  const MAX_DATA: int := 0x7FFF_FFFF

  datatype MaybeInt = MaybeInt(present: bool, val: int)

  function LowBound(m: MaybeInt): int { if m.present then m.val else MIN_DATA }

  function HighBound(m: MaybeInt): int { if m.present then m.val else MAX_DATA }

  /** The positions i with from <= i < to and l <= s[i] < h, ascending. */
  function Scan(s: seq<int>, l: int, h: int, from: nat, to: nat): seq<int>
    requires to <= |s|
  {
    if to <= from then []
    else Scan(s, l, h, from, to - 1) + if l <= s[to - 1] < h then [to - 1] else []
  }

  ghost predicate Increasing(p: seq<int>) {
    forall a, b :: 0 <= a < b < |p| ==> p[a] < p[b]
  }

  lemma AppendRow(p: seq<int>, x: int)
    requires Increasing(p) && forall i :: i in p ==> i < x
    ensures Increasing(p + [x]) && forall i :: i in p + [x] <==> i in p || i == x
  {
    assert forall a :: 0 <= a < |p| ==> p[a] in p;
  }

  lemma {:induction false} ScanMembers(s: seq<int>, l: int, h: int, from: nat, to: nat)
    requires to <= |s|
    ensures forall i :: i in Scan(s, l, h, from, to) <==> from <= i < to && l <= s[i] < h
  {
    if from < to {
      ScanMembers(s, l, h, from, to - 1);
    }
  }

  lemma {:induction false} ScanAscending(s: seq<int>, l: int, h: int, from: nat, to: nat)
    requires to <= |s|
    ensures Increasing(Scan(s, l, h, from, to))
  {
    if from < to {
      ScanAscending(s, l, h, from, to - 1);
      ScanMembers(s, l, h, from, to - 1);
      AppendRow(Scan(s, l, h, from, to - 1), to - 1);
    }
  }

  /** Every row in range is reported, nothing else is, and in ascending order without repetition. */
  lemma ScanMeaning(s: seq<int>, l: int, h: int, from: nat, to: nat)
    requires to <= |s|
    ensures var r := Scan(s, l, h, from, to);
            && (forall i :: i in r <==> from <= i < to && l <= s[i] < h)
            && (forall a, b :: 0 <= a < b < |r| ==> r[a] < r[b])
  {
    ScanMembers(s, l, h, from, to);
    ScanAscending(s, l, h, from, to);
  }

  /** Scanning block after block is scanning once. */
  lemma {:induction false} ScanConcat(s: seq<int>, l: int, h: int, from: nat, mid: nat, to: nat)
    requires from <= mid <= to <= |s|
    ensures Scan(s, l, h, from, to) == Scan(s, l, h, from, mid) + Scan(s, l, h, mid, to)
  {
    if mid < to {
      ScanConcat(s, l, h, from, mid, to - 1);
    }
  }

  /** The block bounds select_one_unsorted really uses. */
  function BlockStart(start: int32): nat { if start < 0 then 0 else start as nat }

  function BlockEnd(end: int32, length: nat): nat {
    if end < 0 || end as nat > length then length else end as nat
  }

  /** A negative bound and an end beyond the column shut out nothing. */
  lemma BlockMeaning(v: seq<int>, l: int, h: int, start: int32, end: int32)
    ensures forall i :: i in Scan(v, l, h, BlockStart(start), BlockEnd(end, |v|)) <==>
              && 0 <= i < |v| && l <= v[i] < h
              && (start >= 0 ==> start as int <= i) && (end >= 0 ==> i < end as int)
  {
    ScanMembers(v, l, h, BlockStart(start), BlockEnd(end, |v|));
  }

  /** The loop body of select_one_unsorted. */
  method TestRow(v: Vector, l: int, h: int, i: nat, res: Vector)
    requires v.Readable() && res.Valid() && res != v && res.buf != v.buf && i < v.length
    modifies res, res.buf
    ensures res.Valid() && (res.buf == old(res.buf) || fresh(res.buf))
    ensures res.Contents() == old(res.Contents()) + if l <= v.Contents()[i] < h then [i] else []
  {
    assert v.buf[i] == v.Contents()[i];
    ghost var s := v.Contents();
    if v.buf[i] >= l && v.buf[i] < h {
      var p := res.Insert(i);
    }
    assert v.Contents() == s;
  }

  /** The loop of select_one_unsorted. */
  method ScanRows(v: Vector, l: int, h: int, first: nat, last: nat, res: Vector)
    requires v.Readable() && res.Valid() && res != v && res.buf != v.buf && last <= v.length
    modifies res, res.buf
    ensures res.Valid() && (res.buf == old(res.buf) || fresh(res.buf))
    ensures res.Contents() == old(res.Contents()) + Scan(v.Contents(), l, h, first, last)
  {
    ghost var before, s := res.Contents(), v.Contents();
    var i := first;
    while i < last
      invariant first <= i && (first <= last ==> i <= last)
      invariant v.Readable() && v.Contents() == s && res != v && res.buf != v.buf
      invariant res.Valid() && (res.buf == old(res.buf) || fresh(res.buf))
      invariant res.Contents() == before + Scan(s, l, h, first, Min(i, last))
    {
      TestRow(v, l, h, i, res);
      OneRowMore(before, s, l, h, first, i);
      i := i + 1;
    }
  }

  lemma OneRowMore(before: seq<int>, s: seq<int>, l: int, h: int, first: nat, i: nat)
    requires first <= i < |s|
    ensures before + Scan(s, l, h, first, i) + (if l <= s[i] < h then [i] else [])
            == before + Scan(s, l, h, first, i + 1)
  {
  }

  /** select_one_unsorted: appends the matches of one block to `result`, made here if it is NULL. */
  method SelectOneUnsorted(v: Vector, l: int, h: int, start: int32, end: int32, result: Vector?) returns (res: Vector)
    requires v.Readable() && v.length <= 0x7FFF_FFFF
    requires result != null ==> result.Valid() && result != v && result.buf != v.buf
    modifies if result != null then {result, result.buf} else {}
    ensures res.Valid() && (result != null ==> res == result && (res.buf == old(result.buf) || fresh(res.buf)))
    ensures result == null ==> fresh(res) && fresh(res.buf)
    ensures res.Contents() == (if result == null then [] else old(result.Contents()))
                              + Scan(v.Contents(), l, h, BlockStart(start), BlockEnd(end, v.length))
  {
    if result == null {
      res := new Vector(0);
    } else {
      res := result;
    }
    var first := if start < 0 then 0 else start;
    var last := if end < 0 || end as nat > v.length then ToInt(v.length) else end;
    ScanRows(v, l, h, first as nat, last as nat, res);
  }

  /** fetch: `values[p]` for every position p, in the order of the positions. */
  method Fetch(values: Vector, positions: Vector) returns (ret: Vector)
    requires values.Readable() && positions.Readable()
    requires forall k :: 0 <= k < positions.length ==> 0 <= positions.Contents()[k] < values.length
    ensures fresh(ret) && fresh(ret.buf) && ret.Valid()
    ensures ret.Contents() == Fetched(values.Contents(), positions.Contents())
  {
    ret := new Vector(0);
    ghost var s, p := values.Contents(), positions.Contents();
    var i := 0;
    while i < positions.length
      invariant i <= positions.length && fresh(ret) && fresh(ret.buf) && ret.Valid()
      invariant values.Contents() == s && positions.Contents() == p
      invariant ret.Contents() == Fetched(s, p[..i])
    {
      var pos := positions.buf[i];
      assert pos == p[i] && p[..i + 1][..i] == p[..i] && values.buf[pos] == s[pos];
      var at := ret.Insert(values.buf[pos]);
      i := i + 1;
    }
    assert p[..i] == p;
  }

  function Fetched(s: seq<int>, p: seq<int>): (r: seq<int>)
    requires forall k :: 0 <= k < |p| ==> 0 <= p[k] < |s|
    ensures |r| == |p| && forall k :: 0 <= k < |p| ==> r[k] == s[p[k]]
  {
    if p == [] then [] else Fetched(s, p[..|p| - 1]) + [s[p[|p| - 1]]]
  }

  /** The first column's positions (as C ints) whose fetched values are in range. */
  function Kept(p: seq<int>, vals: seq<int>, l: int, h: int): seq<int>
    requires |vals| <= |p|
  {
    if vals == [] then []
    else
      var n := |vals| - 1;
      Kept(p, vals[..n], l, h) + if l <= vals[n] < h then [ToInt(p[n]) as int] else []
  }

  /** select_two. */
  method SelectTwo(posVec: Vector, valVec: Vector, low: MaybeInt, high: MaybeInt) returns (ret: Vector)
    requires posVec.Readable() && valVec.Readable() && valVec.length <= posVec.length
    ensures fresh(ret) && fresh(ret.buf) && ret.Valid()
    ensures ret.Contents() == Kept(posVec.Contents(), valVec.Contents(), LowBound(low), HighBound(high))
  {
    var l := LowBound(low);
    var h := HighBound(high);
    ret := new Vector(0);
    ghost var p, s := posVec.Contents(), valVec.Contents();
    var i := 0;
    while i < valVec.length
      invariant i <= valVec.length && fresh(ret) && fresh(ret.buf) && ret.Valid()
      invariant posVec.Contents() == p && valVec.Contents() == s
      invariant ret.Contents() == Kept(p, s[..i], l, h)
    {
      assert valVec.buf[i] == s[i] && posVec.buf[i] == p[i] && s[..i + 1][..i] == s[..i];
      if valVec.buf[i] >= l && valVec.buf[i] < h {
        var pos: int32 := ToInt(posVec.buf[i]);
        var at := ret.Insert(pos as int);
      }
      i := i + 1;
    }
    assert s[..i] == s;
  }

  /** The rows that satisfy a range on each of two columns, ascending. */
  function ScanBoth(s: seq<int>, l: int, h: int, s2: seq<int>, l2: int, h2: int, n: nat): seq<int>
    requires n <= |s| && n <= |s2|
  {
    if n == 0 then []
    else ScanBoth(s, l, h, s2, l2, h2, n - 1) + if l <= s[n - 1] < h && l2 <= s2[n - 1] < h2 then [n - 1] else []
  }

  lemma {:induction false} ScanBothMeaning(s: seq<int>, l: int, h: int, s2: seq<int>, l2: int, h2: int, n: nat)
    requires n <= |s| && n <= |s2|
    ensures var r := ScanBoth(s, l, h, s2, l2, h2, n);
            && (forall i :: i in r <==> 0 <= i < n && l <= s[i] < h && l2 <= s2[i] < h2)
            && (forall a, b :: 0 <= a < b < |r| ==> r[a] < r[b])
  {
    if n > 0 {
      ScanBothMeaning(s, l, h, s2, l2, h2, n - 1);
      AppendRow(ScanBoth(s, l, h, s2, l2, h2, n - 1), n - 1);
    }
  }

  lemma ScanWithin(s: seq<int>, l: int, h: int, n: nat)
    requires n <= |s|
    ensures forall k :: 0 <= k < |Scan(s, l, h, 0, n)| ==> 0 <= Scan(s, l, h, 0, n)[k] < n
  {
    ScanMeaning(s, l, h, 0, n);
    assert forall k :: 0 <= k < |Scan(s, l, h, 0, n)| ==> Scan(s, l, h, 0, n)[k] in Scan(s, l, h, 0, n);
  }

  /** Select on one column, fetch another at the result, select on what was fetched. */
  function Picked(s: seq<int>, l: int, h: int, s2: seq<int>, l2: int, h2: int, n: nat): seq<int>
    requires n <= |s| && n <= |s2|
  {
    ScanWithin(s, l, h, n);
    var p := Scan(s, l, h, 0, n);
    Kept(p, Fetched(s2, p), l2, h2)
  }

  lemma PickedStep(s: seq<int>, l: int, h: int, s2: seq<int>, l2: int, h2: int, n: nat)
    requires 0 < n <= |s| && n <= |s2| && n <= 0x8000_0000
    ensures Picked(s, l, h, s2, l2, h2, n)
            == Picked(s, l, h, s2, l2, h2, n - 1) + if l <= s[n - 1] < h && l2 <= s2[n - 1] < h2 then [n - 1] else []
  {
    var q := Scan(s, l, h, 0, n - 1);
    ScanWithin(s, l, h, n - 1);
    if l <= s[n - 1] < h {
      ScanWithin(s, l, h, n);
      assert Scan(s, l, h, 0, n) == q + [n - 1];
      assert Fetched(s2, q + [n - 1]) == Fetched(s2, q) + [s2[n - 1]];
      KeptAppend(q, n - 1, Fetched(s2, q), s2[n - 1], l2, h2);
    } else {
      assert Scan(s, l, h, 0, n) == q;
    }
  }

  lemma PickedNone(s: seq<int>, l: int, h: int, s2: seq<int>, l2: int, h2: int)
    ensures Picked(s, l, h, s2, l2, h2, 0) == []
  {
    assert Scan(s, l, h, 0, 0) == [] && Fetched(s2, []) == [] && Kept([], [], l2, h2) == [];
  }

  /**
    Select, fetch, select: exactly the rows in both ranges, ascending (positions fit a C int).
   */
  lemma {:induction false} SelectFetchSelect(s: seq<int>, l: int, h: int, s2: seq<int>, l2: int, h2: int, n: nat)
    requires n <= |s| && n <= |s2| && n <= 0x8000_0000
    ensures Picked(s, l, h, s2, l2, h2, n) == ScanBoth(s, l, h, s2, l2, h2, n)
  {
    if n == 0 {
      PickedNone(s, l, h, s2, l2, h2);
    } else {
      SelectFetchSelect(s, l, h, s2, l2, h2, n - 1);
      PickedStep(s, l, h, s2, l2, h2, n);
      assert ScanBoth(s, l, h, s2, l2, h2, n)
             == ScanBoth(s, l, h, s2, l2, h2, n - 1)
                + if l <= s[n - 1] < h && l2 <= s2[n - 1] < h2 then [n - 1] else [];
    }
  }

  lemma KeptAppend(q: seq<int>, x: nat, f: seq<int>, y: int, l: int, h: int)
    requires |q| == |f| && x < 0x8000_0000
    ensures Kept(q + [x], f + [y], l, h) == Kept(q, f, l, h) + if l <= y < h then [x] else []
  {
    assert (f + [y])[..|f|] == f && (q + [x])[|f|] == x;
    KeptPrefix(q, q + [x], f, l, h);
  }

  lemma {:induction false} KeptPrefix(q: seq<int>, p: seq<int>, vals: seq<int>, l: int, h: int)
    requires |vals| <= |q| <= |p| && q == p[..|q|]
    ensures Kept(q, vals, l, h) == Kept(p, vals, l, h)
  {
    if vals != [] {
      KeptPrefix(q, p, vals[..|vals| - 1], l, h);
    }
  }

  // ---------- Selects on a sorted column: closed ranges ----------

  /** On a sorted column the matches of a half-open range are one block. */
  lemma {:induction false} ScanSorted(s: seq<int>, l: int, h: int, lo: nat, hi: nat, n: nat)
    requires n <= |s| && lo <= hi <= |s|
    requires forall k :: 0 <= k < |s| ==> (l <= s[k] < h <==> lo <= k < hi)
    ensures Scan(s, l, h, 0, n) == Upto(lo, if n < hi then n else hi)
  {
    if n > 0 {
      ScanSorted(s, l, h, lo, hi, n - 1);
    }
  }

  /** The numbers a, a + 1, ..., b - 1. */
  function Upto(a: nat, b: nat): seq<int> {
    if b <= a then [] else Upto(a, b - 1) + [b - 1]
  }

  /**
    select_one_primary on a sorted column: both bounds included. If the length hi - lo that it
    asks for is negative, the result is empty and has no room at all.
   */
  method SelectOnePrimary(v: Vector, l: int, h: int) returns (ret: Vector)
    requires v.Readable() && v.length <= 0x4000_0000 && Ascending(v.Contents())
    ensures fresh(ret) && fresh(ret.buf) && ret.Readable()
    ensures ret.Contents() == Scan(v.Contents(), l, h + 1, 0, v.length)
    ensures ret.maxLength == 0 <==> CountLess(v.Contents(), l) > CountAtMost(v.Contents(), h)
  {
    ghost var s := v.Contents();
    var lp := BinarySearchLeft(v.buf, l, v.length);
    var hp := BinarySearchRight(v.buf, h, v.length);
    ret := new Vector(hp as int - lp as int);
    var i := lp;
    while i < hp
      invariant lp <= i && (lp <= hp ==> i <= hp && ret.Valid()) && (hp < lp ==> ret.maxLength == 0)
      invariant fresh(ret) && fresh(ret.buf) && ret.Readable() && ret.Contents() == Upto(lp, i)
    {
      var at := ret.Insert(i);
      i := i + 1;
    }
    assert forall k :: 0 <= k < |s| ==> s[k] == v.buf[k];
    ScanSorted(s, l, h + 1, lp, if lp <= hp then hp else lp, |s|);
  }

  /** The length hi - lo of both sorted selects is negative exactly if a value lies strictly between h and l. */
  lemma {:induction false} ClosedLength(s: seq<int>, l: int, h: int)
    ensures l <= h ==> CountLess(s, l) <= CountAtMost(s, h)
    ensures l > h ==> (CountLess(s, l) <= CountAtMost(s, h) <==> forall k :: 0 <= k < |s| ==> !(h < s[k] < l))
    ensures l > h ==> CountLess(s, l) >= CountAtMost(s, h)
  {
    if s != [] {
      ClosedLength(s[1..], l, h);
      assert s == [s[0]] + s[1..];
    }
  }
}
