/** src/scheduler.c: the list of scheduled selects, and both ways to execute it. */
module Scheduling {
  import opened Utils
  import opened Vectors
  import opened Scans
  import opened Columns
  import opened Interleavings
  import opened BTreeHeap

  class ScNode {
    const name: string
    const col: Column
    const l: MaybeInt
    const h: MaybeInt
    var start: int32
    var end: int32
    var result: Vector?
    var next: ScNode?

    // What stands behind the pthread_t of the node: how far its thread is, and its loop variable.
    var phase: Phase
    var cursor: nat

    constructor (name: string, col: Column, l: MaybeInt, h: MaybeInt, next: ScNode?)
      ensures this.name == name && this.col == col && this.l == l && this.h == h
      ensures this.next == next && result == null && phase == Idle && start == end == -1
    {
      this.name, this.col, this.l, this.h, this.next := name, col, l, h, next;
      start, end, result := -1, -1, null;
      phase, cursor := Idle, 0;
    }
  }

  /** `nodes` are the nodes of the list that starts at `root`, each once. */
  ghost predicate IsList(root: ScNode?, nodes: seq<ScNode>)
    reads (set n | n in nodes)`next
  {
    && (forall i, j :: 0 <= i < j < |nodes| ==> nodes[i] != nodes[j])
    && root == NodeAt(nodes, 0)
    && forall k :: 0 <= k < |nodes| ==> NextIs(nodes, k)
  }

  /** Where a walk stands that has passed `k` nodes. */
  ghost function NodeAt(nodes: seq<ScNode>, k: nat): ScNode? {
    if k < |nodes| then nodes[k] else null
  }

  ghost predicate NextIs(nodes: seq<ScNode>, k: nat)
    requires k < |nodes|
    reads {nodes[k]}`next
  {
    nodes[k].next == NodeAt(nodes, k + 1)
  }

  /** add_vector_var: a name and the vector it is bound to. */
  datatype Binding = Binding(name: string, v: Vector?)

  /** What schedule_select was given. */
  datatype Request = Request(name: string, col: Column, l: MaybeInt, h: MaybeInt)

  ghost function Requests(nodes: seq<ScNode>): (rs: seq<Request>)
    ensures |rs| == |nodes|
    ensures forall k :: 0 <= k < |rs| ==> rs[k] == Request(nodes[k].name, nodes[k].col, nodes[k].l, nodes[k].h)
  {
    seq(|nodes|, k requires 0 <= k < |nodes| => Request(nodes[k].name, nodes[k].col, nodes[k].l, nodes[k].h))
  }

  /** A column has no part of the schedule in it. */
  lemma ColumnApart(c: Column)
    requires c.Valid()
    ensures forall o :: o in c.repr ==> !(o is ScNode) && !(o is Scheduler)
  {
    if c.index.Btree? {
      ObjsKinds(c.index.tree.layout);
    }
  }

  /** The binding of a sequentially executed select. */
  ghost predicate Bound(b: Binding, n: ScNode, c: ColumnValue)
    reads if b.v != null then {b.v, b.v.buf} else {}
  {
    && b.name == n.name && b.v != null && b.v.Readable()
    && Answers(c, LowBound(n.l), HighBound(n.h), b.v.Contents())
  }

  ghost predicate AllBound(bs: seq<Binding>, nodes: seq<ScNode>, n: nat, cols: map<Column, ColumnValue>)
    reads set b | b in bs && b.v != null :: b.v
    reads set b | b in bs && b.v != null :: b.v.buf
  {
    n == |bs| <= |nodes| && forall k :: 0 <= k < n ==> BoundAt(bs, nodes, k, cols)
  }

  ghost predicate BoundAt(bs: seq<Binding>, nodes: seq<ScNode>, k: nat, cols: map<Column, ColumnValue>)
    requires k < |bs| <= |nodes|
    reads if bs[k].v != null then {bs[k].v, bs[k].v.buf} else {}
  {
    nodes[k].col in cols && Bound(bs[k], nodes[k], cols[nodes[k].col])
  }

  lemma BindOne(vars: seq<Binding>, bs: seq<Binding>, nodes: seq<ScNode>, k: nat, cols: map<Column, ColumnValue>,
                b: Binding)
    requires AllBound(bs, nodes, k, cols) && k < |nodes|
    requires nodes[k].col in cols && Bound(b, nodes[k], cols[nodes[k].col])
    ensures AllBound(bs + [b], nodes, k + 1, cols) && vars + bs + [b] == vars + (bs + [b])
  {
    forall j | 0 <= j < |bs + [b]| ensures BoundAt(bs + [b], nodes, j, cols) {
      if j < k { assert BoundAt(bs, nodes, j, cols); }
    }
  }

  ghost predicate CanSelect(n: ScNode, cols: map<Column, ColumnValue>) {
    n.col in cols && Selectable(cols[n.col])
  }

  class Scheduler {
    var root: ScNode?
    ghost var nodes: seq<ScNode>
    var vars: seq<Binding>

    ghost predicate Valid()
      reads `root, `nodes, nodes
    {
      IsList(root, nodes) && forall k :: 0 <= k < |nodes| ==> nodes[k].result == null && nodes[k].phase == Idle
    }

    constructor ()
      ensures Valid() && nodes == [] && vars == []
    {
      root, nodes, vars := null, [], [];
    }

    /** schedule_select: the new node goes in front. */
    method ScheduleSelect(name: string, col: Column, l: MaybeInt, h: MaybeInt)
      requires Valid()
      modifies this
      ensures Valid() && vars == old(vars)
      ensures Requests(nodes) == [Request(name, col, l, h)] + old(Requests(nodes))
    {
      var n := new ScNode(name, col, l, h, root);
      forall k | 0 <= k < |nodes| + 1 ensures NextIs([n] + nodes, k) {
        if k > 0 { assert NextIs(nodes, k - 1); }
      }
      root, nodes := n, [n] + nodes;
    }

    /** unschedule_all. */
    method UnscheduleAll()
      modifies this
      ensures Valid() && nodes == [] && vars == old(vars)
    {
      root, nodes := null, [];
    }

    /** add_vector_var. */
    method AddVectorVar(v: Vector?, name: string)
      modifies this`vars
      ensures vars == old(vars) + [Binding(name, v)]
    {
      vars := vars + [Binding(name, v)];
    }

    /** One round of execute_scheduled_sequentially: a select on the current node and its binding. */
    method SelectNode(cur: ScNode, ghost cols: map<Column, ColumnValue>) returns (ghost b: Binding)
      requires cur.col in cols && forall x :: x in cols ==> x.Is(cols[x])
      requires Selectable(cols[cur.col])
      modifies this`vars
      ensures vars == old(vars) + [b] && Bound(b, cur, cols[cur.col])
      ensures forall x :: x in cols ==> x.Is(cols[x])
    {
      forall x | x in cols ensures this !in x.repr {
        ColumnApart(x);
      }
      var v := cur.col.SelectOne(cur.l, cur.h);
      assert forall x :: x in cols ==> x.Is(cols[x]);
      AddVectorVar(v, cur.name);
      b := Binding(cur.name, v);
    }

    /** The first `k` nodes have been bound, and the columns are what they were. */
    ghost predicate Selecting(k: nat, cols: map<Column, ColumnValue>, before: seq<Binding>, bound: seq<Binding>)
      reads this, nodes, set x | x in cols, set x, o | x in cols && o in x.repr :: o
      reads set b | b in bound && b.v != null :: b.v
      reads set b | b in bound && b.v != null :: b.v.buf
    {
      && Valid() && k <= |nodes| && vars == before + bound && AllBound(bound, nodes, k, cols)
      && forall x :: x in cols ==> x.Is(cols[x])
    }

    /** The loop body of execute_scheduled_sequentially: bind, and on to the next node. */
    method SelectNext(cur: ScNode, ghost k: nat, ghost cols: map<Column, ColumnValue>, ghost before: seq<Binding>,
                      ghost bound: seq<Binding>) returns (next: ScNode?, ghost bound': seq<Binding>)
      requires Selecting(k, cols, before, bound) && k < |nodes| && cur == nodes[k] && CanSelect(cur, cols)
      modifies this`vars
      ensures Selecting(k + 1, cols, before, bound') && next == NodeAt(nodes, k + 1)
    {
      assert NextIs(nodes, k) && AllBound(bound, nodes, k, cols);
      ghost var b := SelectNode(cur, cols);
      forall j | 0 <= j < k ensures BoundAt(bound, nodes, j, cols) {
        assert old(BoundAt(bound, nodes, j, cols));
      }
      BindOne(before, bound, nodes, k, cols, b);
      bound' := bound + [b];
      next := cur.next;
    }

    /** execute_scheduled_sequentially: one select_one after the other, in list order. */
    method ExecuteScheduledSequentially(ghost cols: map<Column, ColumnValue>) returns (ghost bound: seq<Binding>)
      requires Valid() && forall x :: x in cols ==> x.Is(cols[x])
      requires forall k :: 0 <= k < |nodes| ==> CanSelect(nodes[k], cols)
      modifies this
      ensures Valid() && nodes == [] && vars == old(vars) + bound
      ensures |bound| == |old(nodes)| && AllBound(bound, old(nodes), |bound|, cols)
    {
      bound := [];
      if root == null {
        return;
      }
      var cur := root;
      ghost var before, k := vars, 0;
      while cur != null
        invariant k <= |nodes| && cur == NodeAt(nodes, k) && nodes == old(nodes)
        invariant Selecting(k, cols, before, bound)
        decreases |nodes| - k
      {
        cur, bound := SelectNext(cur, k, cols, before, bound);
        k := k + 1;
      }
      UnscheduleAll();
    }
  }
}
