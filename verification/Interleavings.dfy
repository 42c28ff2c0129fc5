/**
  execute_scheduled of src/scheduler.c as a step system. The main thread creates one worker per
  scheduled select for each block of the first column, waits for all of them, and goes on to the
  next block; between its steps the workers take theirs in any order. A step of a worker is one
  round of the loop of select_one_unsorted.
 */
module Interleavings {
  import opened Utils
  import opened Scans

  /** n_pages * PAGESIZE. */
  const BLOCK: nat := 32 * 4096

  datatype Option<T> = None | Some(value: T)

  datatype Phase = Idle | Created | Scanning | Exited

  /** A scheduled node and its thread; `result` is NULL until the first block. */
  datatype Worker = Worker(col: seq<int>, l: int, h: int, start: int32, end: int32,
                           phase: Phase, cursor: nat, result: Option<seq<int>>)

  /** Where the main thread is: in the block from row `i` on, about to create or join thread `k`. */
  datatype Main = Creating(i: nat, k: nat) | Joining(i: nat, k: nat) | Finished

  datatype State = State(main: Main, workers: seq<Worker>)

  datatype Step = MainStep | WorkerStep(k: nat)

  /** The outer loop bounds itself by the column of the first node. */
  function Rows(s: State): nat
    requires s.workers != []
  {
    |s.workers[0].col|
  }

  function Last(w: Worker): nat { BlockEnd(w.end, |w.col|) }

  predicate Enabled(s: State, step: Step)
    requires s.workers != []
  {
    match step
    case MainStep =>
      (match s.main
       case Creating(i, k) => k <= |s.workers|
       case Joining(i, k) => k <= |s.workers| && (k < |s.workers| ==> s.workers[k].phase == Exited)
       case Finished => false)
    case WorkerStep(k) => k < |s.workers| && (s.workers[k].phase == Created || s.workers[k].phase == Scanning)
  }

  /** One step of a thread: it starts, it looks at one row, or it exits. */
  function Advance(w: Worker): Worker {
    if w.phase == Created then
      w.(phase := Scanning, cursor := BlockStart(w.start),
         result := if w.result == None then Some([]) else w.result)
    else if w.phase == Scanning && w.result.Some? && w.cursor < Last(w) then
      var x := w.col[w.cursor];
      w.(cursor := w.cursor + 1,
         result := if w.l <= x < w.h then Some(w.result.value + [w.cursor]) else w.result)
    else w.(phase := Exited)
  }

  function Launched(w: Worker, i: nat): Worker {
    w.(start := ToInt(i), end := ToInt(i + BLOCK), phase := Created)
  }

  function Apply(s: State, step: Step): State
    requires s.workers != [] && Enabled(s, step)
  {
    match step
    case MainStep =>
      (match s.main
       case Creating(i, k) =>
         if k < |s.workers| then State(Creating(i, k + 1), s.workers[k := Launched(s.workers[k], i)])
         else s.(main := Joining(i, 0))
       case Joining(i, k) =>
         if k < |s.workers| then State(Joining(i, k + 1), s.workers[k := s.workers[k].(phase := Idle)])
         else s.(main := Entering(i + BLOCK, Rows(s)))
       case Finished => s)
    case WorkerStep(k) => s.(workers := s.workers[k := Advance(s.workers[k])])
  }

  /** The test of the outer loop. */
  function Entering(i: nat, rows: nat): Main {
    if i < rows then Creating(i, 0) else Finished
  }

  /** Nodes as schedule_select leaves them. */
  predicate Fresh(w: Worker) {
    w.phase == Idle && w.result == None && |w.col| <= 0x7FFF_FFFF
  }

  predicate Initial(s: State) {
    s.workers != [] && (forall k :: 0 <= k < |s.workers| ==> Fresh(s.workers[k])) && s.main == Entering(0, Rows(s))
  }

  // ---------- The invariant ----------

  /** What a select has found once the first `n` rows of its column have been looked at. */
  function Found(col: seq<int>, l: int, h: int, n: nat): seq<int> {
    Scan(col, l, h, 0, Min(n, |col|))
  }

  /** The result as the blocks before row `i` leave it. */
  function Before(col: seq<int>, l: int, h: int, i: nat): Option<seq<int>> {
    if i == 0 then None else Some(Found(col, l, h, i))
  }

  /** The rows covered by whole blocks up to the end of a column of `rows` rows. */
  function Covered(rows: nat): (n: nat)
    ensures rows <= n < rows + BLOCK && n % BLOCK == 0
  {
    (rows + BLOCK - 1) / BLOCK * BLOCK
  }

  /** The result of a select when the first scheduled column has `rows` rows. */
  function FinalResult(col: seq<int>, l: int, h: int, rows: nat): Option<seq<int>> {
    Before(col, l, h, Covered(rows))
  }

  predicate Resting(w: Worker, i: nat) {
    w.phase == Idle && w.result == Before(w.col, w.l, w.h, i)
  }

  predicate Running(w: Worker, i: nat) {
    && w.start == ToInt(i) && w.end == ToInt(i + BLOCK)
    && match w.phase
       case Idle => false
       case Created => w.result == Before(w.col, w.l, w.h, i)
       case Scanning =>
         && i <= w.cursor && (w.cursor > i ==> w.cursor <= Last(w))
         && w.result == Some(Found(w.col, w.l, w.h, w.cursor))
       case Exited => w.result == Some(Found(w.col, w.l, w.h, i + BLOCK))
  }

  predicate WorkerOk(s: State, k: nat)
    requires k < |s.workers|
  {
    var w := s.workers[k];
    && |w.col| <= 0x7FFF_FFFF
    && match s.main
       case Creating(i, c) => if k < c then Running(w, i) else Resting(w, i)
       case Joining(i, c) => if k < c then Resting(w, i + BLOCK) else Running(w, i)
       case Finished => w.phase == Idle && w.result == FinalResult(w.col, w.l, w.h, Rows(s))
  }

  predicate MainOk(s: State)
    requires s.workers != []
  {
    match s.main
    case Creating(i, k) => i % BLOCK == 0 && i < Rows(s) && k <= |s.workers|
    case Joining(i, k) => i % BLOCK == 0 && i < Rows(s) && k <= |s.workers|
    case Finished => true
  }

  predicate Inv(s: State) {
    s.workers != [] && MainOk(s) && forall k :: 0 <= k < |s.workers| ==> WorkerOk(s, k)
  }

  lemma {:induction false} InitialInv(s: State)
    requires Initial(s)
    ensures Inv(s)
  {
    forall k | 0 <= k < |s.workers| ensures WorkerOk(s, k) { assert Fresh(s.workers[k]); }
  }

  /** The C ints `start` and `end` delimit the block, although `end` may wrap around in the last one. */
  lemma BlockBounds(i: nat, rows: nat)
    requires i <= 0x7FFF_FFFF && rows <= 0x7FFF_FFFF
    ensures BlockStart(ToInt(i)) == i && BlockEnd(ToInt(i + BLOCK), rows) == Min(i + BLOCK, rows)
  {
  }

  lemma CoveredBlocks(i: nat, rows: nat)
    requires i % BLOCK == 0 && i < rows <= i + BLOCK
    ensures Covered(rows) == i + BLOCK
  {
  }

  /** A thread keeps its own node in order, whatever step it takes. */
  lemma AdvanceRunning(w: Worker, i: nat)
    requires Running(w, i) && |w.col| <= 0x7FFF_FFFF && i <= 0x7FFF_FFFF
    requires w.phase == Created || w.phase == Scanning
    ensures Running(Advance(w), i)
  {
    BlockBounds(i, |w.col|);
    if w.phase == Scanning {
      if w.cursor < Last(w) {
        var w' := Advance(w);
        assert Found(w.col, w.l, w.h, w.cursor + 1) == Found(w.col, w.l, w.h, w.cursor)
                 + if w.l <= w.col[w.cursor] < w.h then [w.cursor] else [];
        assert w'.result.value == Found(w.col, w.l, w.h, w'.cursor);
      } else {
        assert Min(w.cursor, |w.col|) == Min(i + BLOCK, |w.col|);
      }
    }
  }

  /** Every step of every thread keeps the invariant. */
  lemma InvStep(s: State, step: Step)
    requires Inv(s) && Enabled(s, step)
    ensures Inv(Apply(s, step)) && Rows(Apply(s, step)) == Rows(s)
  {
    assert forall k :: 0 <= k < |s.workers| ==> WorkerOk(s, k);
    match step
    case WorkerStep(k) => WorkerKeeps(s, k);
    case MainStep => MainKeeps(s);
  }

  lemma WorkerKeeps(s: State, k: nat)
    requires Inv(s) && Enabled(s, WorkerStep(k))
    ensures Inv(Apply(s, WorkerStep(k))) && Rows(Apply(s, WorkerStep(k))) == Rows(s)
  {
    var s' := Apply(s, WorkerStep(k));
    assert WorkerOk(s, 0) && WorkerOk(s, k);
    AdvanceRunning(s.workers[k], s.main.i);
    forall j | 0 <= j < |s'.workers| ensures WorkerOk(s', j) { assert WorkerOk(s, j); }
  }

  lemma MainKeeps(s: State)
    requires Inv(s) && Enabled(s, MainStep)
    ensures Inv(Apply(s, MainStep)) && Rows(Apply(s, MainStep)) == Rows(s)
  {
    if s.main.Creating? { CreatingKeeps(s); } else { JoiningKeeps(s); }
  }

  lemma CreatingKeeps(s: State)
    requires Inv(s) && Enabled(s, MainStep) && s.main.Creating?
    ensures Inv(Apply(s, MainStep)) && Rows(Apply(s, MainStep)) == Rows(s)
  {
    var s' := Apply(s, MainStep);
    forall j | 0 <= j < |s'.workers| ensures WorkerOk(s', j) { assert WorkerOk(s, j); }
  }

  lemma JoiningKeeps(s: State)
    requires Inv(s) && Enabled(s, MainStep) && s.main.Joining?
    ensures Inv(Apply(s, MainStep)) && Rows(Apply(s, MainStep)) == Rows(s)
  {
    var s' := Apply(s, MainStep);
    if s'.main == Finished {
      CoveredBlocks(s.main.i, Rows(s));
    }
    forall j | 0 <= j < |s'.workers| ensures WorkerOk(s', j) { assert WorkerOk(s, j); }
  }

  // ---------- All interleavings ----------

  predicate Runs(s: State, steps: seq<Step>)
    requires s.workers != []
    decreases |steps|
  {
    steps == [] || (Enabled(s, steps[0]) && Runs(Apply(s, steps[0]), steps[1..]))
  }

  function After(s: State, steps: seq<Step>): State
    requires s.workers != [] && Runs(s, steps)
    decreases |steps|
  {
    if steps == [] then s else After(Apply(s, steps[0]), steps[1..])
  }

  /** The same selects on the same columns. */
  predicate SameSelects(s: State, s': State) {
    |s.workers| == |s'.workers| && forall k :: 0 <= k < |s.workers| ==> SameSelect(s.workers[k], s'.workers[k])
  }

  predicate SameSelect(w: Worker, w': Worker) {
    w.col == w'.col && w.l == w'.l && w.h == w'.h
  }

  lemma {:induction false} RunKeeps(s: State, steps: seq<Step>)
    requires Inv(s) && Runs(s, steps)
    ensures Inv(After(s, steps)) && SameSelects(s, After(s, steps)) && Rows(After(s, steps)) == Rows(s)
    decreases |steps|
  {
    if steps != [] {
      InvStep(s, steps[0]);
      var s' := Apply(s, steps[0]);
      assert SameSelects(s, s');
      RunKeeps(s', steps[1..]);
      forall k | 0 <= k < |s.workers| ensures SameSelect(s.workers[k], After(s, steps).workers[k]) {
        assert SameSelect(s.workers[k], s'.workers[k]) && SameSelect(s'.workers[k], After(s', steps[1..]).workers[k]);
      }
    }
  }

  /**
    However the threads interleave, a finished run leaves in every node the scan of its column up
    to the last block of the first column, and no vector at all if that column is empty.
   */
  lemma EveryInterleaving(s: State, steps: seq<Step>, k: nat)
    requires Initial(s) && Runs(s, steps) && After(s, steps).main == Finished && k < |s.workers|
    ensures k < |After(s, steps).workers|
    ensures var w := s.workers[k]; After(s, steps).workers[k].result == FinalResult(w.col, w.l, w.h, Rows(s))
  {
    InitialInv(s);
    RunKeeps(s, steps);
    assert WorkerOk(After(s, steps), k) && SameSelect(s.workers[k], After(s, steps).workers[k]);
  }

  lemma {:induction false} ScanEmpty(s: seq<int>, l: int, h: int, from: nat, to: nat)
    requires to <= |s|
    ensures Scan(s, l, h, from, to) == [] <==> forall i :: from <= i < to ==> !(l <= s[i] < h)
  {
    if from < to { ScanEmpty(s, l, h, from, to - 1); }
  }

  /** A scan of the first `n` rows is a scan of the whole column exactly if there is no match beyond them. */
  lemma PrefixScan(s: seq<int>, l: int, h: int, n: nat)
    ensures Scan(s, l, h, 0, Min(n, |s|)) == Scan(s, l, h, 0, |s|) <==> forall i :: n <= i < |s| ==> !(l <= s[i] < h)
  {
    var m := Min(n, |s|);
    ScanConcat(s, l, h, 0, m, |s|);
    ScanEmpty(s, l, h, m, |s|);
    var a, b := Scan(s, l, h, 0, m), Scan(s, l, h, m, |s|);
    assert a + b == a <==> b == [] by {
      if a + b == a { assert |b| == 0; }
    }
  }

  /** A select sees its whole column exactly if there is a block at all and no match beyond the last one. */
  lemma FullScanWhen(col: seq<int>, l: int, h: int, rows: nat)
    ensures FinalResult(col, l, h, rows) == Some(Scan(col, l, h, 0, |col|))
            <==> rows > 0 && forall i :: Covered(rows) <= i < |col| ==> !(l <= col[i] < h)
  {
    PrefixScan(col, l, h, Covered(rows));
  }

  /** The lengths alone decide: every range is fully scanned exactly if the first column's blocks cover this one. */
  lemma FullScanLengths(col: seq<int>, rows: nat)
    ensures (forall l: int, h: int :: FinalResult(col, l, h, rows) == Some(Scan(col, l, h, 0, |col|)))
            <==> rows > 0 && |col| <= Covered(rows)
  {
    if rows > 0 && |col| <= Covered(rows) {
      forall l: int, h: int ensures FinalResult(col, l, h, rows) == Some(Scan(col, l, h, 0, |col|)) {
        FullScanWhen(col, l, h, rows);
      }
    } else if rows > 0 {
      var x := col[Covered(rows)];
      FullScanWhen(col, x, x + 1, rows);
    } else {
      FullScanWhen(col, 0, 0, rows);
    }
  }

  /** An empty first column leaves every other select without a vector, whatever it would have found. */
  lemma EmptyFirstColumn()
    ensures FinalResult([7], MIN_DATA, MAX_DATA, 0) == None && Scan([7], MIN_DATA, MAX_DATA, 0, 1) == [0]
  {
    assert Covered(0) == 0;
  }

  /** Columns of one nonzero length: every scheduled select ends with one full scan of its column. */
  lemma EqualLengths(s: State, steps: seq<Step>, k: nat)
    requires Initial(s) && Runs(s, steps) && After(s, steps).main == Finished && k < |s.workers|
    requires |s.workers[k].col| == Rows(s) > 0
    ensures k < |After(s, steps).workers|
    ensures var w := s.workers[k];
            After(s, steps).workers[k].result == Some(Scan(w.col, w.l, w.h, 0, |w.col|))
  {
    EveryInterleaving(s, steps, k);
    FullScanWhen(s.workers[k].col, s.workers[k].l, s.workers[k].h, Rows(s));
  }

  /** Two different steps that are both possible do not disturb each other: their order does not matter. */
  lemma Commute(s: State, a: Step, b: Step)
    requires Inv(s) && a != b && Enabled(s, a) && Enabled(s, b)
    ensures Enabled(Apply(s, a), b) && Enabled(Apply(s, b), a)
    ensures Apply(Apply(s, a), b) == Apply(Apply(s, b), a)
  {
    assert forall k :: 0 <= k < |s.workers| ==> WorkerOk(s, k);
    if a.WorkerStep? && b.WorkerStep? {
      CommuteWorkers(s, a.k, b.k);
    } else if a == MainStep {
      CommuteMain(s, b.k);
    } else {
      CommuteMain(s, a.k);
    }
  }

  lemma CommuteWorkers(s: State, a: nat, b: nat)
    requires s.workers != [] && a != b && Enabled(s, WorkerStep(a)) && Enabled(s, WorkerStep(b))
    ensures Enabled(Apply(s, WorkerStep(a)), WorkerStep(b)) && Enabled(Apply(s, WorkerStep(b)), WorkerStep(a))
    ensures Apply(Apply(s, WorkerStep(a)), WorkerStep(b)) == Apply(Apply(s, WorkerStep(b)), WorkerStep(a))
  {
    assert Apply(Apply(s, WorkerStep(a)), WorkerStep(b)).workers
        == Apply(Apply(s, WorkerStep(b)), WorkerStep(a)).workers;
  }

  lemma CommuteMain(s: State, k: nat)
    requires Inv(s) && Enabled(s, MainStep) && Enabled(s, WorkerStep(k)) && WorkerOk(s, k)
    ensures Enabled(Apply(s, MainStep), WorkerStep(k)) && Enabled(Apply(s, WorkerStep(k)), MainStep)
    ensures Apply(Apply(s, MainStep), WorkerStep(k)) == Apply(Apply(s, WorkerStep(k)), MainStep)
  {
    assert Apply(Apply(s, MainStep), WorkerStep(k)).workers == Apply(Apply(s, WorkerStep(k)), MainStep).workers;
  }

  // ---------- Every run ends ----------

  /** Until the end some thread can always take a step: no deadlock. */
  lemma Progress(s: State)
    requires Inv(s) && s.main != Finished
    ensures exists step :: Enabled(s, step)
  {
    if s.main.Joining? && s.main.k < |s.workers| && s.workers[s.main.k].phase != Exited {
      assert WorkerOk(s, s.main.k);
      assert Enabled(s, WorkerStep(s.main.k));
    } else {
      assert Enabled(s, MainStep);
    }
  }

  /** The steps a thread still has before it exits: start, one per row, exit. */
  function Left(w: Worker): nat {
    match w.phase
    case Created => BLOCK + 2
    case Scanning => 1 + if w.cursor < Last(w) then Last(w) - w.cursor else 0
    case _ => 0
  }

  function AllLeft(ws: seq<Worker>): nat {
    if ws == [] then 0 else Left(ws[|ws| - 1]) + AllLeft(ws[..|ws| - 1])
  }

  lemma {:induction false} AllLeftUpdate(ws: seq<Worker>, k: nat, w: Worker)
    requires k < |ws|
    ensures AllLeft(ws[k := w]) == AllLeft(ws) - Left(ws[k]) + Left(w)
  {
    var n, vs := |ws| - 1, ws[k := w];
    if k == n {
      assert vs[..n] == ws[..n];
    } else {
      assert vs[..n] == ws[..n][k := w];
      AllLeftUpdate(ws[..n], k, w);
    }
  }

  /** The steps of one whole block with `n` threads. */
  function PerBlock(n: nat): nat { n * (BLOCK + 4) + 2 }

  /** The blocks after the one from row `i` on. */
  function BlocksAfter(i: nat, rows: nat): nat {
    if rows <= i then 0 else (rows - 1 - i) / BLOCK
  }

  function LaterBlocks(i: nat, rows: nat, n: nat): nat { BlocksAfter(i, rows) * PerBlock(n) }

  /** Creating `m` threads and all that they do. */
  function Threads(m: nat): nat { m * (BLOCK + 3) }

  /** An upper bound on all steps still to come, whatever their order. */
  function Measure(s: State): nat
    requires s.workers != [] && MainOk(s)
  {
    var n := |s.workers|;
    match s.main
    case Creating(i, k) => LaterBlocks(i, Rows(s), n) + Threads(n - k) + n + 2 + AllLeft(s.workers)
    case Joining(i, k) => LaterBlocks(i, Rows(s), n) + (n - k) + 1 + AllLeft(s.workers)
    case Finished => 0
  }

  lemma BlockStep(i: nat, rows: nat, n: nat)
    requires i + BLOCK < rows
    ensures LaterBlocks(i, rows, n) == LaterBlocks(i + BLOCK, rows, n) + PerBlock(n)
  {
    var b := BlocksAfter(i + BLOCK, rows);
    assert BlocksAfter(i, rows) == b + 1;
    assert (b + 1) * PerBlock(n) == b * PerBlock(n) + PerBlock(n);
  }

  lemma WorkerDecreases(s: State, k: nat)
    requires Inv(s) && Enabled(s, WorkerStep(k))
    ensures var s' := Apply(s, WorkerStep(k)); MainOk(s') && Measure(s') < Measure(s)
  {
    assert WorkerOk(s, 0) && WorkerOk(s, k);
    var w := s.workers[k];
    BlockBounds(s.main.i, |w.col|);
    assert Left(Advance(w)) < Left(w);
    AllLeftUpdate(s.workers, k, Advance(w));
  }

  lemma MainDecreases(s: State)
    requires Inv(s) && Enabled(s, MainStep)
    ensures var s' := Apply(s, MainStep); s'.workers != [] && MainOk(s') && Measure(s') < Measure(s)
  {
    MainKeeps(s);
    var i, k, n := s.main.i, s.main.k, |s.workers|;
    if k < n {
      assert WorkerOk(s, k);
      AllLeftUpdate(s.workers, k, if s.main.Creating? then Launched(s.workers[k], i) else s.workers[k].(phase := Idle));
      assert Threads(n - k) == Threads(n - (k + 1)) + BLOCK + 3;
    } else if s.main.Joining? && i + BLOCK < Rows(s) {
      BlockStep(i, Rows(s), n);
    }
  }

  lemma StepDecreases(s: State, step: Step)
    requires Inv(s) && Enabled(s, step)
    ensures var s' := Apply(s, step); s'.workers != [] && MainOk(s') && Measure(s') < Measure(s)
  {
    match step {
      case WorkerStep(k) => WorkerDecreases(s, k);
      case MainStep => MainDecreases(s);
    }
  }

  /** No run is longer than the measure of its first state: with Progress, every maximal run finishes. */
  lemma {:induction false} RunsEnd(s: State, steps: seq<Step>)
    requires Inv(s) && Runs(s, steps)
    ensures |steps| <= Measure(s)
    decreases |steps|
  {
    if steps != [] {
      var s' := Apply(s, steps[0]);
      InvStep(s, steps[0]);
      StepDecreases(s, steps[0]);
      RunsEnd(s', steps[1..]);
    }
  }

  /** From every reachable state some order of steps leads to the end. */
  lemma {:induction false} CanFinish(s: State) returns (steps: seq<Step>)
    requires Inv(s)
    ensures Runs(s, steps) && After(s, steps).main == Finished
    decreases Measure(s)
  {
    if s.main == Finished {
      steps := [];
    } else {
      Progress(s);
      var step :| Enabled(s, step);
      InvStep(s, step);
      StepDecreases(s, step);
      var rest := CanFinish(Apply(s, step));
      steps := [step] + rest;
      assert steps[1..] == rest;
    }
  }
}
