/**
  The step system of module Interleavings on the heap: the threads of execute_scheduled change the
  fields and result vectors of their nodes, one step at a time, in any order a scheduler picks. Each
  step does to the nodes what Apply does to their values, so what is proved of all interleavings
  holds of the nodes.
 */
module Threads {
  import opened Utils
  import opened Vectors
  import opened Scans
  import opened Interleavings
  import opened Scheduling
  import opened Executor

  /** The node and its thread are in the state `w`. */
  ghost predicate WorkerIs(n: ScNode, w: Worker, data: set<object>, pool: set<object>)
    reads n, data, pool
  {
    && VectorIs(n.col, w.col, data) && w.l == LowBound(n.l) && w.h == HighBound(n.h)
    && n.start == w.start && n.end == w.end && n.phase == w.phase && n.cursor == w.cursor
    && ResultIs(n, w.result, pool)
  }

  /** The nodes are in the state `st`, no two of them with a result in common. */
  ghost predicate SystemIs(nodes: seq<ScNode>, st: State, data: set<object>, pool: set<object>)
    reads nodes, data, pool, set n | n in nodes :: n.result
  {
    && |nodes| == |st.workers| && data !! pool && Distinct(nodes)
    && forall k :: 0 <= k < |nodes| ==> nodes[k] !in data + pool && WorkerIs(nodes[k], st.workers[k], data, pool)
  }

  /** One step of thr_func: the thread starts, looks at one row, or exits. */
  method Turn(n: ScNode, ghost w: Worker, ghost data: set<object>, ghost pool: set<object>)
    returns (ghost added: set<object>)
    requires WorkerIs(n, w, data, pool) && data !! pool && n !in data + pool
    requires w.phase == Created || (w.phase == Scanning && w.result.Some?)
    modifies n`phase, n`cursor, n`result, Foot(n)
    ensures WorkerIs(n, Advance(w), data, pool + added)
    ensures Foot(n) <= old(Foot(n)) + added && fresh(added)
  {
    if n.phase == Created {
      if n.result == null {
        n.result := new Vector(0);
      }
      n.cursor, n.phase := BlockStart(n.start), Scanning;
    } else if n.cursor < BlockEnd(n.end, n.col.vector.length) {
      var x := n.col.vector.buf[n.cursor];
      assert x == w.col[n.cursor];
      if x >= LowBound(n.l) && x < HighBound(n.h) {
        var at := n.result.Insert(n.cursor);
      }
      n.cursor := n.cursor + 1;
    } else {
      n.phase := Exited;
    }
    added := Foot(n) - old(Foot(n));
  }

  /** The same step among all nodes: no other node notices. */
  method TurnAmong(n: ScNode, ghost k: nat, ghost nodes: seq<ScNode>, ghost st: State, ghost data: set<object>,
                   ghost pool: set<object>) returns (ghost added: set<object>)
    requires k < |nodes| && n == nodes[k] && SystemIs(nodes, st, data, pool)
    requires var w := st.workers[k]; w.phase == Created || (w.phase == Scanning && w.result.Some?)
    modifies n`phase, n`cursor, n`result, pool
    ensures SystemIs(nodes, st.(workers := st.workers[k := Advance(st.workers[k])]), data, pool + added) && fresh(added)
  {
    assert WorkerIs(n, st.workers[k], data, pool);
    added := Turn(n, st.workers[k], data, pool);
    forall j | 0 <= j < |nodes| && j != k
      ensures Foot(nodes[j]) == old(Foot(nodes[j])) && Foot(nodes[j]) !! Foot(n)
      ensures WorkerIs(nodes[j], st.workers[j], data, pool + added)
    {
      assert old(WorkerIs(nodes[j], st.workers[j], data, pool));
      assert old(if j < k then Apart(nodes[j], nodes[k]) else Apart(nodes[k], nodes[j]));
    }
    forall a, b | 0 <= a < b < |nodes| ensures Apart(nodes[a], nodes[b]) {
      assert old(Apart(nodes[a], nodes[b]));
    }
  }

  /** It is WorkerStep(k) of the step system. */
  method WorkerTurn(n: ScNode, ghost k: nat, ghost nodes: seq<ScNode>, ghost st: State, ghost data: set<object>,
                    ghost pool: set<object>) returns (ghost added: set<object>)
    requires k < |nodes| && n == nodes[k] && SystemIs(nodes, st, data, pool)
    requires Inv(st) && Enabled(st, WorkerStep(k))
    modifies n`phase, n`cursor, n`result, pool
    ensures SystemIs(nodes, Apply(st, WorkerStep(k)), data, pool + added) && fresh(added)
  {
    assert WorkerOk(st, k);
    added := TurnAmong(n, k, nodes, st, data, pool);
  }

  /** A step of the main thread: the next creation or join, or on to the next block. */
  method MainTurn(main: Main, nodes: seq<ScNode>, ghost st: State, ghost data: set<object>, ghost pool: set<object>)
    returns (main': Main)
    requires main == st.main && SystemIs(nodes, st, data, pool)
    requires Inv(st) && Enabled(st, MainStep)
    modifies (set n | n in nodes)`start, (set n | n in nodes)`end, (set n | n in nodes)`phase
    ensures SystemIs(nodes, Apply(st, MainStep), data, pool) && main' == Apply(st, MainStep).main
  {
    match main {
      case Creating(i, k) =>
        if k < |nodes| {
          SetThread(nodes[k], nodes, k, ToInt(i), ToInt(i + BLOCK), Created, st, data, pool);
          main' := Creating(i, k + 1);
        } else {
          main' := Joining(i, 0);
        }
      case Joining(i, k) =>
        if k < |nodes| {
          SetThread(nodes[k], nodes, k, nodes[k].start, nodes[k].end, Idle, st, data, pool);
          main' := Joining(i, k + 1);
        } else {
          assert WorkerIs(nodes[0], st.workers[0], data, pool);
          main' := Entering(i + BLOCK, nodes[0].col.vector.length);
        }
    }
  }

  /** What pthread_create and pthread_join change of a node. */
  method SetThread(n: ScNode, ghost nodes: seq<ScNode>, ghost k: nat, start: int32, end: int32, phase: Phase,
                   ghost st: State, ghost data: set<object>, ghost pool: set<object>)
    requires k < |nodes| && n == nodes[k] && SystemIs(nodes, st, data, pool)
    modifies n`start, n`end, n`phase
    ensures SystemIs(nodes, st.(workers := st.workers[k := st.workers[k].(start := start, end := end, phase := phase)]),
                     data, pool)
  {
    n.start, n.end, n.phase := start, end, phase;
    forall a, b | 0 <= a < b < |nodes| ensures Apart(nodes[a], nodes[b]) {
      assert old(Apart(nodes[a], nodes[b]));
    }
    forall j | 0 <= j < |nodes| && j != k ensures WorkerIs(nodes[j], st.workers[j], data, pool) {
      assert old(WorkerIs(nodes[j], st.workers[j], data, pool));
      assert old(if j < k then Apart(nodes[j], nodes[k]) else Apart(nodes[k], nodes[j]));
    }
  }

  lemma RunNext(st: State, steps: seq<Step>)
    requires Inv(st) && steps != [] && Runs(st, steps)
    ensures Enabled(st, steps[0]) && Inv(Apply(st, steps[0])) && Runs(Apply(st, steps[0]), steps[1..])
    ensures After(st, steps) == After(Apply(st, steps[0]), steps[1..])
  {
    InvStep(st, steps[0]);
  }

  /** One step of whichever thread is next. */
  method TakeStep(main: Main, step: Step, nodes: seq<ScNode>, ghost st: State, ghost data: set<object>,
                  ghost pool: set<object>)
    returns (main': Main, ghost added: set<object>)
    requires main == st.main && SystemIs(nodes, st, data, pool) && Inv(st) && Enabled(st, step)
    modifies (set n | n in nodes)`start, (set n | n in nodes)`end, (set n | n in nodes)`phase
    modifies (set n | n in nodes)`cursor, (set n | n in nodes)`result, pool
    ensures SystemIs(nodes, Apply(st, step), data, pool + added) && main' == Apply(st, step).main && fresh(added)
  {
    added := {};
    match step {
      case MainStep =>
        main' := MainTurn(main, nodes, st, data, pool);
        assert pool + added == pool;
      case WorkerStep(k) =>
        main' := main;
        added := WorkerTurn(nodes[k], k, nodes, st, data, pool);
    }
  }

  /** Any run of the step system, played on the nodes, leaves them in the state that it ends in. */
  method Play(main: Main, schedule: seq<Step>, nodes: seq<ScNode>, ghost st: State, ghost data: set<object>)
    returns (ghost pool: set<object>)
    requires main == st.main && SystemIs(nodes, st, data, {}) && Inv(st) && Runs(st, schedule)
    modifies (set n | n in nodes)`start, (set n | n in nodes)`end, (set n | n in nodes)`phase
    modifies (set n | n in nodes)`cursor, (set n | n in nodes)`result
    ensures SystemIs(nodes, After(st, schedule), data, pool) && fresh(pool)
  {
    var pc := main;
    ghost var now, rest := st, schedule;
    pool := {};
    var i := 0;
    while i < |schedule|
      invariant i <= |schedule| && rest == schedule[i..] && Inv(now) && Runs(now, rest)
      invariant After(now, rest) == After(st, schedule)
      invariant pc == now.main && SystemIs(nodes, now, data, pool) && fresh(pool)
    {
      RunNext(now, rest);
      ghost var added;
      pc, added := TakeStep(pc, schedule[i], nodes, now, data, pool);
      now, rest, pool := Apply(now, rest[0]), rest[1..], pool + added;
      i := i + 1;
    }
  }

  /** The nodes of a schedule as a state of the step system. */
  ghost function Start(nodes: seq<ScNode>, vals: seq<seq<int>>): State
    requires |nodes| == |vals| > 0
    reads nodes
  {
    State(Entering(0, |vals[0]|),
          seq(|nodes|, k requires 0 <= k < |nodes| reads nodes =>
            Worker(vals[k], LowBound(nodes[k].l), HighBound(nodes[k].h), nodes[k].start, nodes[k].end,
                   nodes[k].phase, nodes[k].cursor, None)))
  }

  /** `schedule` is an order of steps in which execute_scheduled runs to its end. */
  ghost predicate Completes(schedule: seq<Step>, nodes: seq<ScNode>, vals: seq<seq<int>>)
    requires |nodes| == |vals|
    reads nodes
  {
    nodes != [] ==>
      Runs(Start(nodes, vals), schedule) && After(Start(nodes, vals), schedule).main == Finished
  }

  lemma AtStart(root: ScNode?, nodes: seq<ScNode>, vals: seq<seq<int>>) returns (data: set<object>)
    requires IsList(root, nodes) && |nodes| == |vals| > 0
    requires forall k :: 0 <= k < |nodes| ==>
               nodes[k].result == null && nodes[k].phase == Idle && Scheduled(nodes[k], vals[k])
    ensures SystemIs(nodes, Start(nodes, vals), data, {}) && Initial(Start(nodes, vals))
  {
    data := AtFirst(root, nodes, vals);
    var st := Start(nodes, vals);
    forall k | 0 <= k < |nodes| ensures WorkerIs(nodes[k], st.workers[k], data, {}) && Fresh(st.workers[k]) {
      assert NodeIs(nodes[k], vals[k], data, {}, DoneBefore(k, 0, 0));
    }
  }

  lemma AtEnd(nodes: seq<ScNode>, vals: seq<seq<int>>, st: State, schedule: seq<Step>, data: set<object>,
              pool: set<object>)
    requires |nodes| == |vals| == |st.workers| > 0
    requires forall k :: 0 <= k < |nodes| ==>
               var w := st.workers[k];
               w.col == vals[k] && w.l == LowBound(nodes[k].l) && w.h == HighBound(nodes[k].h)
    requires Initial(st) && Runs(st, schedule) && After(st, schedule).main == Finished
    requires SystemIs(nodes, After(st, schedule), data, pool)
    ensures forall j :: 0 <= j < |nodes| ==> ResultIs(nodes[j], Wanted(nodes, vals)[j], pool)
  {
    forall j | 0 <= j < |nodes| ensures ResultIs(nodes[j], Wanted(nodes, vals)[j], pool) {
      EveryInterleaving(st, schedule, j);
      assert WorkerIs(nodes[j], After(st, schedule).workers[j], data, pool);
    }
  }

  /** All threads of execute_scheduled, from nodes as they were scheduled to all results. */
  method RunThreads(nodes: seq<ScNode>, schedule: seq<Step>, ghost root: ScNode?, ghost vals: seq<seq<int>>)
    returns (ghost pool: set<object>)
    requires IsList(root, nodes) && |nodes| == |vals| > 0
    requires forall k :: 0 <= k < |nodes| ==>
               nodes[k].result == null && nodes[k].phase == Idle && Scheduled(nodes[k], vals[k])
    requires Completes(schedule, nodes, vals)
    modifies (set n | n in nodes)`start, (set n | n in nodes)`end, (set n | n in nodes)`phase
    modifies (set n | n in nodes)`cursor, (set n | n in nodes)`result
    ensures fresh(pool)
    ensures forall j :: 0 <= j < |nodes| ==> ResultIs(nodes[j], Wanted(nodes, vals)[j], pool)
  {
    ghost var st := Start(nodes, vals);
    ghost var data := AtStart(root, nodes, vals);
    InitialInv(st);
    assert WorkerIs(nodes[0], st.workers[0], data, {});
    pool := Play(Entering(0, nodes[0].col.vector.length), schedule, nodes, st, data);
    AtEnd(nodes, vals, st, schedule, data, pool);
  }

  /** execute_scheduled under any schedule of its threads: every name is bound to the same result. */
  method ExecuteInterleaved(s: Scheduler, nodes: seq<ScNode>, schedule: seq<Step>, ghost vals: seq<seq<int>>)
    returns (ghost bound: seq<Binding>, ghost pool: set<object>)
    requires s.Valid() && nodes == s.nodes && |nodes| == |vals|
    requires forall k :: 0 <= k < |vals| ==> Scheduled(nodes[k], vals[k])
    requires Completes(schedule, nodes, vals)
    modifies s, nodes
    ensures s.Valid() && s.nodes == [] && s.vars == old(s.vars) + bound
    ensures |bound| == |vals| && fresh(pool) && AllDelivered(bound, nodes, Wanted(nodes, vals), pool)
  {
    bound, pool := [], {};
    if s.root == null {
      return;
    }
    pool := RunThreads(nodes, schedule, s.root, vals);
    bound := BindResults(s, nodes, Wanted(nodes, vals), pool);
    s.UnscheduleAll();
  }
}
