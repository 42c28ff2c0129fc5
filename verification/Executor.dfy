/**
  The block loops of execute_scheduled on the list of nodes, with each thread running when it is
  joined. Module Interleavings shows that no other order of the threads ends differently.
 */
module Executor {
  import opened Utils
  import opened Vectors
  import opened Scans
  import opened Columns
  import opened Interleavings
  import opened Scheduling

  /** The column stands on objects of `data` and holds `s`. */
  ghost predicate VectorIs(c: Column, s: seq<int>, data: set<object>)
    reads data
  {
    && {c} <= data && {c.vector} <= data && {c.vector.buf} <= data
    && c.vector.Valid() && c.vector.Contents() == s && |s| <= 0x7FFF_FFFF
  }

  /** The result of a node stands on objects of `pool` and is `want`. */
  ghost predicate ResultIs(n: ScNode, want: Option<seq<int>>, pool: set<object>)
    reads n`result, pool
  {
    if n.result == null then want == None
    else
      var v: Vector := n.result;
      v in pool && v.buf in pool && v.Valid() && want == Some(v.Contents())
  }

  /** A node whose result covers the blocks of its column before row `i`. */
  ghost predicate NodeIs(n: ScNode, s: seq<int>, data: set<object>, pool: set<object>, i: nat)
    reads n`result, data, pool
  {
    VectorIs(n.col, s, data) && ResultIs(n, Before(s, LowBound(n.l), HighBound(n.h), i), pool)
  }

  /** The objects of a node's result. */
  ghost function Foot(n: ScNode): set<object>
    reads n`result, n.result
  {
    if n.result == null then {} else var v: Vector := n.result; {v, v.buf}
  }

  /** thr_func: select_one_block on the node's column, into the node's result. */
  method ThrFunc(n: ScNode, ghost s: seq<int>, ghost data: set<object>, ghost pool: set<object>, ghost i: nat)
    returns (ghost added: set<object>)
    requires NodeIs(n, s, data, pool, i) && data !! pool && i % BLOCK == 0 && i <= 0x7FFF_FFFF
    requires n.start == ToInt(i) && n.end == ToInt(i + BLOCK)
    modifies n`result, Foot(n)
    ensures NodeIs(n, s, data, pool + added, i + BLOCK)
    ensures Foot(n) <= old(Foot(n)) + added && fresh(added)
  {
    var l := LowBound(n.l);
    var h := HighBound(n.h);
    BlockBounds(i, |s|);
    ScanBlock(s, l, h, i);
    var r := SelectOneUnsorted(n.col.vector, l, h, n.start, n.end, n.result);
    n.result := r;
    added := Foot(n) - old(Foot(n));
  }

  /** One block more. */
  lemma ScanBlock(s: seq<int>, l: int, h: int, i: nat)
    ensures Found(s, l, h, i + BLOCK) == Found(s, l, h, i) + Scan(s, l, h, i, Min(i + BLOCK, |s|))
    ensures Found(s, l, h, 0) == []
  {
    if i <= |s| {
      ScanConcat(s, l, h, 0, i, Min(i + BLOCK, |s|));
    }
  }

  ghost predicate Apart(m: ScNode, n: ScNode)
    reads m`result, n`result, m.result, n.result
  {
    m != n && Foot(m) !! Foot(n)
  }

  ghost predicate Distinct(nodes: seq<ScNode>)
    reads (set n | n in nodes)`result, set n | n in nodes :: n.result
  {
    forall a, b :: 0 <= a < b < |nodes| ==> Apart(nodes[a], nodes[b])
  }

  function DoneBefore(j: nat, k: nat, i: nat): nat { if j < k then i + BLOCK else i }

  /** Nodes with one result each; the first `k` are one block ahead. */
  ghost predicate Pool(nodes: seq<ScNode>, vals: seq<seq<int>>, data: set<object>, pool: set<object>, k: nat, i: nat)
    reads (set n | n in nodes)`result, data, pool
  {
    && |nodes| == |vals| && data !! pool
    && forall j :: 0 <= j < |nodes| ==> NodeIs(nodes[j], vals[j], data, pool, DoneBefore(j, k, i))
  }

  ghost predicate Advancing(nodes: seq<ScNode>, vals: seq<seq<int>>, data: set<object>, pool: set<object>, k: nat,
                            i: nat)
    reads (set n | n in nodes)`result, data, pool, set n | n in nodes :: n.result
  {
    Pool(nodes, vals, data, pool, k, i) && Distinct(nodes)
  }

  ghost predicate Launched(n: ScNode, i: nat)
    reads n`start, n`end
  {
    n.start == ToInt(i) && n.end == ToInt(i + BLOCK)
  }

  /** pthread_join on node `k`: no other node notices. */
  method JoinAmong(cur: ScNode, ghost nodes: seq<ScNode>, ghost vals: seq<seq<int>>, ghost data: set<object>,
                   ghost pool: set<object>, ghost k: nat, ghost i: nat) returns (ghost added: set<object>)
    requires k < |nodes| && cur == nodes[k] && Advancing(nodes, vals, data, pool, k, i)
    requires Launched(cur, i) && i % BLOCK == 0 && i <= 0x7FFF_FFFF
    modifies cur`result, pool
    ensures Advancing(nodes, vals, data, pool + added, k + 1, i) && fresh(added)
  {
    assert NodeIs(nodes[k], vals[k], data, pool, DoneBefore(k, k, i));
    added := ThrFunc(cur, vals[k], data, pool, i);
    ghost var n := k + 1;
    forall j | 0 <= j < |nodes| && j != k
      ensures Foot(nodes[j]) == old(Foot(nodes[j])) && Foot(nodes[j]) !! Foot(cur)
      ensures NodeIs(nodes[j], vals[j], data, pool + added, DoneBefore(j, n, i))
    {
      assert old(NodeIs(nodes[j], vals[j], data, pool, DoneBefore(j, k, i)));
      assert old(if j < k then Apart(nodes[j], nodes[k]) else Apart(nodes[k], nodes[j]));
    }
    forall a, b | 0 <= a < b < |nodes| ensures Apart(nodes[a], nodes[b]) {
      assert old(Apart(nodes[a], nodes[b]));
    }
  }

  /** pthread_join on node `k`, and on to the next node. */
  method JoinNode(cur: ScNode, ghost nodes: seq<ScNode>, ghost vals: seq<seq<int>>, ghost data: set<object>,
                  ghost pool: set<object>, ghost k: nat, ghost i: nat)
    returns (next: ScNode?, ghost added: set<object>)
    requires k < |nodes| && cur == nodes[k] && NextIs(nodes, k) && Launched(cur, i)
    requires Advancing(nodes, vals, data, pool, k, i)
    requires i % BLOCK == 0 && i <= 0x7FFF_FFFF
    modifies cur`result, pool
    ensures Advancing(nodes, vals, data, pool + added, k + 1, i) && fresh(added)
    ensures next == NodeAt(nodes, k + 1)
  {
    next := cur.next;
    added := JoinAmong(cur, nodes, vals, data, pool, k, i);
  }

  /** The loop that creates the threads of the block from row `i` on. */
  method CreateThreads(root: ScNode?, i: nat, ghost nodes: seq<ScNode>)
    requires IsList(root, nodes)
    modifies (set n | n in nodes)`start, (set n | n in nodes)`end
    ensures forall j :: 0 <= j < |nodes| ==> Launched(nodes[j], i)
  {
    var cur := root;
    ghost var k := 0;
    while cur != null
      invariant k <= |nodes| && cur == NodeAt(nodes, k)
      invariant forall j :: 0 <= j < k ==> Launched(nodes[j], i)
      decreases |nodes| - k
    {
      assert NextIs(nodes, k);
      cur.start, cur.end := ToInt(i), ToInt(i + BLOCK);
      cur := cur.next;
      k := k + 1;
    }
  }

  /** The loop that waits for them. */
  method JoinThreads(root: ScNode?, i: nat, ghost nodes: seq<ScNode>, ghost vals: seq<seq<int>>,
                     ghost data: set<object>, ghost pool: set<object>) returns (ghost added: set<object>)
    requires IsList(root, nodes) && Advancing(nodes, vals, data, pool, 0, i)
    requires i % BLOCK == 0 && i <= 0x7FFF_FFFF
    requires forall j :: 0 <= j < |nodes| ==> Launched(nodes[j], i) && nodes[j] !in pool
    modifies (set n | n in nodes)`result, pool
    ensures Advancing(nodes, vals, data, pool + added, |nodes|, i) && fresh(added)
  {
    var cur := root;
    ghost var k := 0;
    added := {};
    ghost var cover := pool;
    while cur != null
      invariant k <= |nodes| && cur == NodeAt(nodes, k) && fresh(added) && cover == pool + added
      invariant Advancing(nodes, vals, data, cover, k, i)
      decreases |nodes| - k
    {
      assert NextIs(nodes, k) && Launched(cur, i);
      ghost var more;
      cur, more := JoinNode(cur, nodes, vals, data, cover, k, i);
      added, cover := added + more, cover + more;
      k := k + 1;
    }
    AllAdvanced(nodes, vals, data, cover, pool + added, k, i);
  }

  lemma AllAdvanced(nodes: seq<ScNode>, vals: seq<seq<int>>, data: set<object>, cover: set<object>, pool: set<object>,
                    k: nat, i: nat)
    requires Advancing(nodes, vals, data, cover, k, i) && cover == pool && k == |nodes|
    ensures Advancing(nodes, vals, data, pool, |nodes|, i)
  {
  }

  /** One round of the outer loop. */
  method RunBlock(root: ScNode?, i: nat, ghost nodes: seq<ScNode>, ghost vals: seq<seq<int>>, ghost data: set<object>,
                  ghost pool: set<object>) returns (ghost added: set<object>)
    requires IsList(root, nodes) && Advancing(nodes, vals, data, pool, 0, i)
    requires i % BLOCK == 0 && i <= 0x7FFF_FFFF
    requires forall j :: 0 <= j < |nodes| ==> nodes[j] !in pool && nodes[j] !in data
    modifies (set n | n in nodes)`start, (set n | n in nodes)`end, (set n | n in nodes)`result, pool
    ensures Advancing(nodes, vals, data, pool + added, 0, i + BLOCK) && fresh(added)
  {
    CreateThreads(root, i, nodes);
    assert Pool(nodes, vals, data, pool, 0, i);
    added := JoinThreads(root, i, nodes, vals, data, pool);
    NextBlock(nodes, vals, data, pool + added, i);
  }

  lemma NextBlock(nodes: seq<ScNode>, vals: seq<seq<int>>, data: set<object>, pool: set<object>, i: nat)
    requires Pool(nodes, vals, data, pool, |nodes|, i)
    ensures Pool(nodes, vals, data, pool, 0, i + BLOCK)
  {
    forall j | 0 <= j < |nodes| ensures NodeIs(nodes[j], vals[j], data, pool, DoneBefore(j, 0, i + BLOCK)) {
      assert NodeIs(nodes[j], vals[j], data, pool, DoneBefore(j, |nodes|, i));
    }
  }

  /** The objects of all scheduled columns. */
  ghost function Data(nodes: seq<ScNode>): set<object>
    reads set n | n in nodes :: n.col
    reads set n | n in nodes :: n.col.vector
  {
    set n, o | n in nodes && o in Parts(n.col) :: o
  }

  ghost function Parts(c: Column): set<object>
    reads c, c.vector
  {
    {c, c.vector, c.vector.buf}
  }

  lemma PartsIn(nodes: seq<ScNode>, k: nat)
    requires k < |nodes|
    ensures Parts(nodes[k].col) <= Data(nodes)
  {
    forall o: object | o in Parts(nodes[k].col) ensures o in Data(nodes) {
      assert nodes[k] in nodes;
    }
  }

  lemma PartsKinds(nodes: seq<ScNode>, j: nat)
    requires j < |nodes|
    ensures nodes[j] !in Data(nodes)
  {
  }

  /** Nodes as schedule_select leaves them, over columns that hold `vals`. */
  lemma AtFirst(root: ScNode?, nodes: seq<ScNode>, vals: seq<seq<int>>) returns (data: set<object>)
    requires IsList(root, nodes) && |nodes| == |vals|
    requires forall k :: 0 <= k < |nodes| ==> nodes[k].result == null && Scheduled(nodes[k], vals[k])
    ensures Advancing(nodes, vals, data, {}, 0, 0)
    ensures forall j :: 0 <= j < |nodes| ==> nodes[j] !in data
  {
    data := Data(nodes);
    forall j | 0 <= j < |nodes|
      ensures NodeIs(nodes[j], vals[j], data, {}, DoneBefore(j, 0, 0)) && nodes[j] !in data
    {
      PartsKinds(nodes, j);
      PartsIn(nodes, j);
      var c := nodes[j].col;
      assert c in Parts(c) && c.vector in Parts(c) && c.vector.buf in Parts(c);
    }
  }

  ghost predicate Scheduled(n: ScNode, s: seq<int>)
    reads n.col, n.col.vector, n.col.vector.buf
  {
    n.col.vector.Valid() && n.col.vector.Contents() == s && |s| <= 0x7FFF_FFFF
  }

  /** All blocks of the first column, one after the other. */
  method RunBlocks(root: ScNode, ghost nodes: seq<ScNode>, ghost vals: seq<seq<int>>, ghost data: set<object>)
    returns (ghost pool: set<object>)
    requires IsList(root, nodes) && Advancing(nodes, vals, data, {}, 0, 0)
    requires forall j :: 0 <= j < |nodes| ==> nodes[j] !in data
    modifies (set n | n in nodes)`start, (set n | n in nodes)`end, (set n | n in nodes)`result
    ensures |vals| > 0 && Pool(nodes, vals, data, pool, 0, Covered(|vals[0]|)) && fresh(pool)
  {
    var col := root.col;
    pool := {};
    var i := 0;
    assert NodeIs(nodes[0], vals[0], data, pool, DoneBefore(0, 0, 0));
    while i < col.vector.length
      invariant i % BLOCK == 0 && (i == 0 || i - BLOCK < |vals[0]| <= 0x7FFF_FFFF)
      invariant Advancing(nodes, vals, data, pool, 0, i) && fresh(pool)
      invariant VectorIs(col, vals[0], data)
      decreases |vals[0]| - i
    {
      ghost var added := RunBlock(root, i, nodes, vals, data, pool);
      pool := pool + added;
      BlockAfter(i);
      i := i + BLOCK;
      assert NodeIs(nodes[0], vals[0], data, pool, DoneBefore(0, 0, i));
    }
    BlocksDone(i, |vals[0]|);
  }

  lemma BlockAfter(i: nat)
    requires i % BLOCK == 0
    ensures (i + BLOCK) % BLOCK == 0
  {
  }

  lemma BlocksDone(i: nat, rows: nat)
    requires i % BLOCK == 0 && rows <= i && (i == 0 || i - BLOCK < rows)
    ensures i == Covered(rows)
  {
  }

  /** The binding of a node's result. */
  ghost predicate Delivered(b: Binding, n: ScNode, want: Option<seq<int>>, pool: set<object>)
    reads pool
  {
    && b.name == n.name
    && if b.v == null then want == None
       else
         var v: Vector := b.v;
         v in pool && v.buf in pool && v.Valid() && want == Some(v.Contents())
  }

  ghost predicate AllDelivered(bs: seq<Binding>, nodes: seq<ScNode>, wants: seq<Option<seq<int>>>, pool: set<object>)
    reads pool
  {
    |bs| <= |nodes| == |wants| && forall k :: 0 <= k < |bs| ==> Delivered(bs[k], nodes[k], wants[k], pool)
  }

  lemma DeliverOne(vars: seq<Binding>, bs: seq<Binding>, nodes: seq<ScNode>, wants: seq<Option<seq<int>>>,
                   pool: set<object>, b: Binding)
    requires AllDelivered(bs, nodes, wants, pool) && |bs| < |nodes| && Delivered(b, nodes[|bs|], wants[|bs|], pool)
    ensures AllDelivered(bs + [b], nodes, wants, pool) && vars + bs + [b] == vars + (bs + [b])
  {
  }

  /** The loop that binds every result to its name. */
  method BindResults(s: Scheduler, ghost nodes: seq<ScNode>, ghost wants: seq<Option<seq<int>>>,
                     ghost pool: set<object>)
    returns (ghost bound: seq<Binding>)
    requires IsList(s.root, nodes) && |nodes| == |wants| && s !in pool
    requires forall j :: 0 <= j < |nodes| ==> ResultIs(nodes[j], wants[j], pool)
    modifies s`vars
    ensures s.vars == old(s.vars) + bound && |bound| == |nodes| && AllDelivered(bound, nodes, wants, pool)
  {
    ghost var before := s.vars;
    bound := [];
    var cur := s.root;
    while cur != null
      invariant |bound| <= |nodes| && cur == NodeAt(nodes, |bound|)
      invariant s.vars == before + bound && AllDelivered(bound, nodes, wants, pool)
      decreases |nodes| - |bound|
    {
      ghost var k := |bound|;
      assert NextIs(nodes, k) && ResultIs(nodes[k], wants[k], pool);
      s.AddVectorVar(cur.result, cur.name);
      DeliverOne(before, bound, nodes, wants, pool, Binding(cur.name, cur.result));
      bound := bound + [Binding(cur.name, cur.result)];
      cur := cur.next;
    }
  }

  /** What each scheduled select must end with. */
  ghost function Wanted(nodes: seq<ScNode>, vals: seq<seq<int>>): (w: seq<Option<seq<int>>>)
    requires |nodes| == |vals|
    ensures |w| == |nodes|
    ensures forall k :: 0 <= k < |w| ==>
              w[k] == FinalResult(vals[k], LowBound(nodes[k].l), HighBound(nodes[k].h), |vals[0]|)
  {
    seq(|nodes|, k requires 0 <= k < |nodes| =>
      FinalResult(vals[k], LowBound(nodes[k].l), HighBound(nodes[k].h), |vals[0]|))
  }

  /** execute_scheduled. */
  method ExecuteScheduled(s: Scheduler, ghost vals: seq<seq<int>>)
    returns (ghost bound: seq<Binding>, ghost pool: set<object>)
    requires s.Valid() && |s.nodes| == |vals|
    requires forall k :: 0 <= k < |vals| ==> Scheduled(s.nodes[k], vals[k])
    modifies s, s.nodes
    ensures s.Valid() && s.nodes == [] && s.vars == old(s.vars) + bound
    ensures |bound| == |vals| && fresh(pool) && AllDelivered(bound, old(s.nodes), Wanted(old(s.nodes), vals), pool)
  {
    bound, pool := [], {};
    if s.root == null {
      return;
    }
    ghost var nodes := s.nodes;
    pool := RunAll(s.root, nodes, vals);
    bound := BindResults(s, nodes, Wanted(nodes, vals), pool);
    s.UnscheduleAll();
  }

  /** The blocks of execute_scheduled, from nodes as they were scheduled to all results. */
  method RunAll(root: ScNode, ghost nodes: seq<ScNode>, ghost vals: seq<seq<int>>) returns (ghost pool: set<object>)
    requires IsList(root, nodes) && |nodes| == |vals|
    requires forall k :: 0 <= k < |nodes| ==> nodes[k].result == null && Scheduled(nodes[k], vals[k])
    modifies (set n | n in nodes)`start, (set n | n in nodes)`end, (set n | n in nodes)`result
    ensures fresh(pool)
    ensures forall j :: 0 <= j < |vals| ==> ResultIs(nodes[j], Wanted(nodes, vals)[j], pool)
  {
    ghost var data := AtFirst(root, nodes, vals);
    pool := RunBlocks(root, nodes, vals, data);
    AllAtEnd(nodes, vals, data, pool);
  }

  lemma AllAtEnd(nodes: seq<ScNode>, vals: seq<seq<int>>, data: set<object>, pool: set<object>)
    requires vals != [] && Pool(nodes, vals, data, pool, 0, Covered(|vals[0]|))
    ensures forall j :: 0 <= j < |vals| ==> ResultIs(nodes[j], Wanted(nodes, vals)[j], pool)
  {
    forall j | 0 <= j < |vals| ensures ResultIs(nodes[j], Wanted(nodes, vals)[j], pool) {
      assert NodeIs(nodes[j], vals[j], data, pool, DoneBefore(j, 0, Covered(|vals[0]|)));
    }
  }
}
