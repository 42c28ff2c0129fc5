/** Where execute_scheduled and execute_scheduled_sequentially bind the same results, and where they do not. */
module Agreement {
  import opened IndexBuild
  import opened Scans
  import opened Columns
  import opened Interleavings
  import opened Scheduling
  import opened Executor
  import opened Threads

  /** On plain columns, and on those with a B+-tree over their current values, both find the same rows. */
  lemma UnsortedAgrees(c: ColumnValue, l: int, h: int, rows: nat, r: seq<int>)
    requires c.kind == Unsorted && |c.values| == rows > 0
    requires c.index == Nothing || Indexes(c.index, BTREE, c.values)
    requires Answers(c, l, h, r)
    ensures var shared := FinalResult(c.values, l, h, rows);
            shared.Some? && multiset(shared.value) == multiset(r)
  {
    FullScanWhen(c.values, l, h, rows);
    IndexRefinesScan(c.values, l, h);
  }

  /** So the two bindings of one request have the same name and the same multiset of positions. */
  lemma SameBinding(a: Binding, b: Binding, m: ScNode, n: ScNode, c: ColumnValue, rows: nat, pool: set<object>)
    requires m.name == n.name && m.l == n.l && m.h == n.h
    requires c.kind == Unsorted && |c.values| == rows > 0
    requires c.index == Nothing || Indexes(c.index, BTREE, c.values)
    requires Delivered(a, m, FinalResult(c.values, LowBound(m.l), HighBound(m.h), rows), pool) && Bound(b, n, c)
    ensures a.name == b.name && a.v != null && b.v != null && a.v.Readable() && b.v.Readable()
    ensures multiset(a.v.Contents()) == multiset(b.v.Contents())
  {
    UnsortedAgrees(c, LowBound(m.l), HighBound(m.h), rows, b.v.Contents());
  }

  lemma {:induction false} ClosedAtLeast(s: seq<int>, l: int, h: int, n: nat)
    requires n <= |s|
    ensures |Scan(s, l, h, 0, n)| <= |Scan(s, l, h + 1, 0, n)|
  {
    if n > 0 { ClosedAtLeast(s, l, h, n - 1); }
  }

  lemma {:induction false} ClosedSame(s: seq<int>, l: int, h: int, n: nat)
    requires n <= |s| && (l > h || forall i :: 0 <= i < n ==> s[i] != h)
    ensures Scan(s, l, h, 0, n) == Scan(s, l, h + 1, 0, n)
  {
    if n > 0 { ClosedSame(s, l, h, n - 1); }
  }

  lemma {:induction false} ClosedMore(s: seq<int>, l: int, h: int, n: nat, i: nat)
    requires i < n <= |s| && l <= h && s[i] == h
    ensures |Scan(s, l, h, 0, n)| < |Scan(s, l, h + 1, 0, n)|
  {
    if i == n - 1 {
      ClosedAtLeast(s, l, h, n - 1);
    } else {
      ClosedMore(s, l, h, n - 1, i);
    }
  }

  /** A closed range finds more than the half-open one exactly if it is not empty and its upper bound occurs. */
  lemma ClosedScan(s: seq<int>, l: int, h: int, n: nat)
    requires n <= |s|
    ensures |Scan(s, l, h, 0, n)| == |Scan(s, l, h + 1, 0, n)| <==> Scan(s, l, h, 0, n) == Scan(s, l, h + 1, 0, n)
    ensures Scan(s, l, h, 0, n) == Scan(s, l, h + 1, 0, n) <==> l > h || forall i :: 0 <= i < n ==> s[i] != h
  {
    if l > h || forall i :: 0 <= i < n ==> s[i] != h {
      ClosedSame(s, l, h, n);
    } else {
      var i :| 0 <= i < n && s[i] == h;
      ClosedMore(s, l, h, n, i);
    }
  }

  /** On a primary column the shared scan excludes the upper bound and the sequential select does not. */
  lemma PrimaryAgrees(c: ColumnValue, l: int, h: int, rows: nat, r: seq<int>)
    requires c.kind == Primary && |c.values| == rows > 0 && Answers(c, l, h, r)
    ensures FinalResult(c.values, l, h, rows) == Some(r) <==> l > h || h !in c.values
  {
    FullScanWhen(c.values, l, h, rows);
    ClosedScan(c.values, l, h, rows);
  }

  /** So does the select through a sorted index, up to order. */
  lemma SortedAgrees(c: ColumnValue, l: int, h: int, rows: nat, r: seq<int>)
    requires c.kind == Unsorted && |c.values| == rows > 0 && Indexes(c.index, SORTED, c.values)
    requires Answers(c, l, h, r)
    ensures FinalResult(c.values, l, h, rows).Some?
    ensures multiset(FinalResult(c.values, l, h, rows).value) == multiset(r) <==> l > h || h !in c.values
  {
    FullScanWhen(c.values, l, h, rows);
    ClosedScan(c.values, l, h, rows);
    var half, closed := Scan(c.values, l, h, 0, rows), Scan(c.values, l, h + 1, 0, rows);
    if multiset(half) == multiset(r) {
      assert |multiset(half)| == |half| && |multiset(closed)| == |closed|;
    }
  }

  /** A primary column that contains the upper bound: the two ways to execute differ. */
  lemma PrimaryDiffers()
    ensures var c := ColumnValue(Primary, [1, 2], Nothing);
            Answers(c, 1, 2, [0, 1]) && FinalResult(c.values, 1, 2, 2) == Some([0])
  {
    var v := [1, 2];
    assert Scan(v, 1, 3, 0, 0) == [] && Scan(v, 1, 3, 0, 1) == [0] && Scan(v, 1, 3, 0, 2) == [0, 1];
    assert Scan(v, 1, 2, 0, 0) == [] && Scan(v, 1, 2, 0, 1) == [0] && Scan(v, 1, 2, 0, 2) == [0];
    assert Found(v, 1, 2, Covered(2)) == Scan(v, 1, 2, 0, 2);
  }

  // ---------- A whole schedule, both ways ----------

  /** A column on which both ways to execute agree: plain, or with a tree over its current values. */
  ghost predicate Shareable(c: ColumnValue, rows: nat) {
    && c.kind == Unsorted && |c.values| == rows && 0 < rows <= 0x7FFF_FFFF
    && (c.index == Nothing || Indexes(c.index, BTREE, c.values))
  }

  ghost predicate AllShareable(nodes: seq<ScNode>, cols: map<Column, ColumnValue>, rows: nat) {
    forall k :: 0 <= k < |nodes| ==> nodes[k].col in cols && Shareable(cols[nodes[k].col], rows)
  }

  ghost function Values(nodes: seq<ScNode>, cols: map<Column, ColumnValue>): (vals: seq<seq<int>>)
    requires forall k :: 0 <= k < |nodes| ==> nodes[k].col in cols
    ensures |vals| == |nodes| && forall k :: 0 <= k < |vals| ==> vals[k] == cols[nodes[k].col].values
  {
    seq(|nodes|, k requires 0 <= k < |nodes| => cols[nodes[k].col].values)
  }

  /** Two bindings of one name to reorderings of the same positions. */
  ghost predicate SameAt(shared: seq<Binding>, single: seq<Binding>, k: nat)
    requires k < |shared| && k < |single|
    reads if shared[k].v != null then {shared[k].v, shared[k].v.buf} else {}
    reads if single[k].v != null then {single[k].v, single[k].v.buf} else {}
  {
    var v, w := shared[k].v, single[k].v;
    && shared[k].name == single[k].name && v != null && w != null && v.Readable() && w.Readable()
    && multiset(v.Contents()) == multiset(w.Contents())
  }

  /** execute_scheduled, under any schedule of its threads, on columns that stay what they are. */
  method ExecuteShared(a: Scheduler, nodes: seq<ScNode>, schedule: seq<Step>, ghost cols: map<Column, ColumnValue>,
                       ghost rows: nat) returns (ghost bound: seq<Binding>, ghost pool: set<object>)
    requires a.Valid() && nodes == a.nodes && AllShareable(nodes, cols, rows) && forall x :: x in cols ==> x.Is(cols[x])
    requires Completes(schedule, nodes, Values(nodes, cols))
    modifies a, nodes
    ensures a.Valid() && a.nodes == [] && a.vars == old(a.vars) + bound
    ensures |bound| == |nodes| && fresh(pool)
    ensures AllDelivered(bound, nodes, Wanted(nodes, Values(nodes, cols)), pool)
    ensures forall x :: x in cols ==> x.Is(cols[x])
  {
    ghost var vals := Values(nodes, cols);
    forall k | 0 <= k < |vals| ensures Scheduled(nodes[k], vals[k]) {
      assert nodes[k].col.Is(cols[nodes[k].col]);
    }
    forall x | x in cols ensures forall o :: o in x.repr ==> !(o is ScNode) && !(o is Scheduler) {
      ColumnApart(x);
    }
    bound, pool := ExecuteInterleaved(a, nodes, schedule, vals);
  }

  lemma AllSame(shared: seq<Binding>, single: seq<Binding>, m: seq<ScNode>, n: seq<ScNode>,
                cols: map<Column, ColumnValue>, rows: nat, pool: set<object>)
    requires Requests(m) == Requests(n) && AllShareable(m, cols, rows) && |shared| == |m| && |single| == |n|
    requires AllDelivered(shared, m, Wanted(m, Values(m, cols)), pool) && AllBound(single, n, |n|, cols)
    ensures |shared| == |single| && forall k :: 0 <= k < |shared| ==> SameAt(shared, single, k)
  {
    forall k | 0 <= k < |shared| ensures SameAt(shared, single, k) {
      assert Requests(m)[k] == Requests(n)[k] && BoundAt(single, n, k, cols);
      SameBinding(shared[k], single[k], m[k], n[k], cols[m[k].col], rows, pool);
    }
  }

  /** What both ways need of a column is what a sequential select needs. */
  lemma AllSelectable(m: seq<ScNode>, n: seq<ScNode>, cols: map<Column, ColumnValue>, rows: nat)
    requires Requests(m) == Requests(n) && AllShareable(m, cols, rows)
    ensures forall k :: 0 <= k < |n| ==> CanSelect(n[k], cols)
  {
    forall k | 0 <= k < |n| ensures CanSelect(n[k], cols) {
      assert Requests(m)[k] == Requests(n)[k];
    }
  }

  /** A scheduler with nodes of its own stays as it is. */
  method ExecuteBeside(a: Scheduler, b: Scheduler, nodes: seq<ScNode>, schedule: seq<Step>,
                       ghost cols: map<Column, ColumnValue>, ghost rows: nat)
    returns (ghost bound: seq<Binding>, ghost pool: set<object>)
    requires a.Valid() && b.Valid() && a != b && nodes == a.nodes && (forall n :: n in nodes ==> n !in b.nodes)
    requires AllShareable(nodes, cols, rows) && forall x :: x in cols ==> x.Is(cols[x])
    requires Completes(schedule, nodes, Values(nodes, cols))
    modifies a, nodes
    ensures a.Valid() && a.nodes == [] && a.vars == old(a.vars) + bound
    ensures |bound| == |nodes| && AllDelivered(bound, nodes, Wanted(nodes, Values(nodes, cols)), pool)
    ensures forall x :: x in cols ==> x.Is(cols[x])
    ensures b.Valid() && b !in pool
  {
    ghost var n := b.nodes;
    bound, pool := ExecuteShared(a, nodes, schedule, cols, rows);
    forall k | 0 <= k < |n| ensures NextIs(n, k) && n[k].result == null && n[k].phase == Idle {
      assert old(NextIs(n, k)) && n[k] !in nodes;
    }
  }

  /**
    The same requests executed by threads, in any order of their steps, and sequentially: both
    lists end empty, and the bindings agree name by name and as multisets of positions.
   */
  method ExecuteBothWays(a: Scheduler, b: Scheduler, nodes: seq<ScNode>, schedule: seq<Step>,
                         ghost cols: map<Column, ColumnValue>, ghost rows: nat)
    returns (ghost shared: seq<Binding>, ghost single: seq<Binding>)
    requires a.Valid() && b.Valid() && a != b && nodes == a.nodes && (forall n :: n in nodes ==> n !in b.nodes)
    requires Requests(nodes) == Requests(b.nodes)
    requires AllShareable(nodes, cols, rows) && forall x :: x in cols ==> x.Is(cols[x])
    requires Completes(schedule, nodes, Values(nodes, cols))
    modifies a, nodes, b
    ensures a.Valid() && a.nodes == [] && a.vars == old(a.vars) + shared
    ensures b.Valid() && b.nodes == [] && b.vars == old(b.vars) + single
    ensures |shared| == |single| == |nodes|
    ensures forall k :: 0 <= k < |shared| ==> SameAt(shared, single, k)
  {
    ghost var n := b.nodes;
    AllSelectable(nodes, n, cols, rows);
    ghost var pool;
    shared, pool := ExecuteBeside(a, b, nodes, schedule, cols, rows);
    single := b.ExecuteScheduledSequentially(cols);
    AllSame(shared, single, nodes, n, cols, rows, pool);
  }
}
