/**
  What a select answers, from the request itself: `low` and `high` as the caller wrote them, with
  the numbers that stand for an absent bound.
 */
module Requests {
  import opened Utils
  import opened Scans
  import opened Sorting
  import opened BTreeModel
  import opened IndexBuild
  import opened Interleavings
  import opened Columns
  import opened Scheduling
  import opened Executor

  /** Exactly the rows with lo <= v[i] < hi, each of them once. */
  ghost predicate Finds(v: seq<int>, lo: int, hi: int, r: seq<int>) {
    forall i :: multiset(r)[i] == if 0 <= i < |v| && lo <= v[i] < hi then 1 else 0
  }

  lemma {:induction false} ScanFinds(v: seq<int>, l: int, h: int, n: nat)
    requires n <= |v|
    ensures Finds(v[..n], l, h, Scan(v, l, h, 0, n))
  {
    if n > 0 {
      ScanFinds(v, l, h, n - 1);
      OneMoreFound(v, l, h, n - 1, Scan(v, l, h, 0, n - 1));
    }
  }

  lemma OneMoreFound(v: seq<int>, l: int, h: int, n: nat, r: seq<int>)
    requires n < |v| && Finds(v[..n], l, h, r)
    ensures Finds(v[..n + 1], l, h, r + if l <= v[n] < h then [n] else [])
  {
    assert v[..n + 1] == v[..n] + [v[n]] && r + [] == r;
  }

  lemma ScanFindsAll(v: seq<int>, l: int, h: int)
    ensures Finds(v, l, h, Scan(v, l, h, 0, |v|)) && Increasing(Scan(v, l, h, 0, |v|))
  {
    ScanFinds(v, l, h, |v|);
    ScanAscending(v, l, h, 0, |v|);
    assert v[..|v|] == v;
  }

  /** A plain column: a half-open range, in row order. */
  lemma PlainAnswer(v: seq<int>, low: MaybeInt, high: MaybeInt, r: seq<int>)
    requires Answers(ColumnValue(Unsorted, v, Nothing), LowBound(low), HighBound(high), r)
    ensures Finds(v, if low.present then low.val else -0x8000_0000, if high.present then high.val else 0x7FFF_FFFF, r)
    ensures Increasing(r)
  {
    ScanFindsAll(v, LowBound(low), HighBound(high));
  }

  /** A column with a B+-tree over its values: the same rows, by value. */
  lemma TreeAnswer(v: seq<int>, low: MaybeInt, high: MaybeInt, r: seq<int>)
    requires Answers(ColumnValue(Unsorted, v, Records(Bulk(v, |v|))), LowBound(low), HighBound(high), r)
    ensures Finds(v, if low.present then low.val else -0x8000_0000, if high.present then high.val else 0x7FFF_FFFF, r)
    ensures ByValue(v, r)
  {
    ScanFindsAll(v, LowBound(low), HighBound(high));
    IndexRefinesScan(v, LowBound(low), HighBound(high));
  }

  /** A sorted index: the upper bound belongs to the range, by value. */
  lemma SortedAnswer(v: seq<int>, data: seq<int>, low: MaybeInt, high: MaybeInt, r: seq<int>)
    requires Answers(ColumnValue(Unsorted, v, SortedCopy(v, data)), LowBound(low), HighBound(high), r)
    ensures Finds(v, if low.present then low.val else -0x8000_0000,
                  (if high.present then high.val else 0x7FFF_FFFF) + 1, r)
    ensures AscendingAt(v, r)
  {
    ScanFindsAll(v, LowBound(low), HighBound(high) + 1);
  }

  /** A primary column: the upper bound belongs to the range, in row order. */
  lemma PrimaryAnswer(v: seq<int>, x: IndexValue, low: MaybeInt, high: MaybeInt, r: seq<int>)
    requires Answers(ColumnValue(Primary, v, x), LowBound(low), HighBound(high), r)
    ensures Finds(v, if low.present then low.val else -0x8000_0000,
                  (if high.present then high.val else 0x7FFF_FFFF) + 1, r)
    ensures Increasing(r)
  {
    ScanFindsAll(v, LowBound(low), HighBound(high) + 1);
  }

  /** The values that an absent bound does not shut out, for a half-open and for a closed range. */
  lemma EveryBoundKept(v: seq<int>, low: MaybeInt, high: MaybeInt, r: seq<int>)
    requires forall i :: 0 <= i < |v| ==> -0x8000_0000 <= v[i] <= 0x7FFF_FFFF
    ensures var lo, hi := if low.present then low.val else -0x8000_0000, if high.present then high.val else 0x7FFF_FFFF;
            && (Finds(v, lo, hi + 1, r) ==>
                  forall i :: i in r <==>
                    0 <= i < |v| && (low.present ==> low.val <= v[i]) && (high.present ==> v[i] <= high.val))
            && (Finds(v, lo, hi, r) && 0x7FFF_FFFF !in v ==>
                  forall i :: i in r <==>
                    0 <= i < |v| && (low.present ==> low.val <= v[i]) && (high.present ==> v[i] < high.val))
  {
    assert forall i :: i in r <==> multiset(r)[i] > 0;
    assert forall i :: 0 <= i < |v| ==> v[i] in v;
  }

  /** Without bounds a half-open select finds every row exactly if all values are C ints below the largest one. */
  lemma UnboundedFindsAll(v: seq<int>, r: seq<int>)
    requires Finds(v, -0x8000_0000, 0x7FFF_FFFF, r)
    ensures (forall i :: 0 <= i < |v| ==> i in r) <==> forall i :: 0 <= i < |v| ==> -0x8000_0000 <= v[i] < 0x7FFF_FFFF
  {
    assert forall i :: i in r <==> multiset(r)[i] > 0;
  }

  // ---------- select_two ----------

  lemma {:induction false} KeptIsGathered(p: seq<int>, vals: seq<int>, l: int, h: int, n: nat)
    requires n <= |vals| <= |p|
    ensures var rows, r := Scan(vals, l, h, 0, n), Kept(p, vals[..n], l, h);
            |r| == |rows| && forall k :: 0 <= k < |r| ==> 0 <= rows[k] < n && IsCInt(p[rows[k]], r[k])
  {
    if n > 0 {
      KeptIsGathered(p, vals, l, h, n - 1);
      assert vals[..n][..n - 1] == vals[..n - 1];
      ToIntMeaning(p[n - 1]);
    }
  }

  /** select_two keeps the positions of exactly the rows in range, in their order, each cut to a C int. */
  lemma TwoAnswer(p: seq<int>, vals: seq<int>, low: MaybeInt, high: MaybeInt) returns (rows: seq<int>)
    requires |vals| <= |p|
    ensures Finds(vals, if low.present then low.val else -0x8000_0000,
                  if high.present then high.val else 0x7FFF_FFFF, rows)
    ensures Increasing(rows)
    ensures var r := Kept(p, vals, LowBound(low), HighBound(high));
            |r| == |rows| && forall k :: 0 <= k < |r| ==> 0 <= rows[k] < |vals| && IsCInt(p[rows[k]], r[k])
  {
    rows := Scan(vals, LowBound(low), HighBound(high), 0, |vals|);
    ScanFindsAll(vals, LowBound(low), HighBound(high));
    KeptIsGathered(p, vals, LowBound(low), HighBound(high), |vals|);
    assert vals[..|vals|] == vals;
  }

  // ---------- Scheduled selects ----------

  /** The shared scan: the rows in range among those of the blocks that the first column has. */
  lemma SharedAnswer(v: seq<int>, low: MaybeInt, high: MaybeInt, rows: nat)
    ensures var want := FinalResult(v, LowBound(low), HighBound(high), rows);
            var n := Min(|v|, (rows + 131071) / 131072 * 131072);
            && (want == None <==> rows == 0)
            && (rows > 0 ==>
                  && Increasing(want.value)
                  && Finds(v[..n], if low.present then low.val else -0x8000_0000,
                           if high.present then high.val else 0x7FFF_FFFF, want.value))
  {
    var n := Min(|v|, (rows + 131071) / 131072 * 131072);
    WholeBlocks(rows);
    ScanFinds(v, LowBound(low), HighBound(high), n);
    ScanAscending(v, LowBound(low), HighBound(high), 0, n);
  }

  lemma WholeBlocks(rows: nat)
    ensures Covered(rows) == (rows + 131071) / 131072 * 131072
    ensures Covered(rows) == 0 <==> rows == 0
  {
  }

  /** What execute_scheduled binds, from the requests: the column of the node in front counts the blocks. */
  lemma ScheduleAnswer(bound: seq<Binding>, nodes: seq<ScNode>, vals: seq<seq<int>>, pool: set<object>, k: nat)
    requires |bound| == |nodes| == |vals| && k < |nodes|
    requires AllDelivered(bound, nodes, Wanted(nodes, vals), pool)
    ensures bound[k].name == nodes[k].name && (bound[k].v == null <==> |vals[0]| == 0)
    ensures bound[k].v != null ==>
              var b, n := bound[k].v, nodes[k];
              && b.Readable() && Increasing(b.Contents())
              && Finds(vals[k][..Min(|vals[k]|, (|vals[0]| + 131071) / 131072 * 131072)],
                       if n.l.present then n.l.val else -0x8000_0000, if n.h.present then n.h.val else 0x7FFF_FFFF,
                       b.Contents())
  {
    assert Delivered(bound[k], nodes[k], Wanted(nodes, vals)[k], pool);
    SharedAnswer(vals[k], nodes[k].l, nodes[k].h, |vals[0]|);
  }
}
