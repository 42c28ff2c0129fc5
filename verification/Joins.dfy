/**
  What a join returns: how often each pair of positions occurs. The paged nested loop of
  src/cs165_api.c and the probe loop of src/hashjoin.c add up the same table of row pairs in
  different orders.
 */
module Joins {
  import opened Vectors

  /** Positions and values of both sides; row r of one side meets row m of the other. */
  datatype Sides = Sides(pos1: seq<int>, val1: seq<int>, pos2: seq<int>, val2: seq<int>) {
    predicate Valid() { |pos1| <= |val1| && |pos2| <= |val2| }
  }

  type Match = (int, int) -> bool

  type Pair = (int, int)

  predicate Equal(x: int, y: int) { x == y }

  /** 1 if rows r and m match and stand for the pair p. */
  function Cell(s: Sides, f: Match, r: nat, m: nat, p: Pair): nat
    requires s.Valid() && r < |s.pos1| && m < |s.pos2|
  {
    if f(s.val1[r], s.val2[m]) && (s.pos1[r], s.pos2[m]) == p then 1 else 0
  }

  /** Row r against rows m0 .. m1 - 1. */
  function Row(s: Sides, f: Match, r: nat, m0: nat, m1: nat, p: Pair): nat
    requires s.Valid() && r < |s.pos1| && m1 <= |s.pos2|
    decreases m1
  {
    if m1 <= m0 then 0 else Row(s, f, r, m0, m1 - 1, p) + Cell(s, f, r, m1 - 1, p)
  }

  /** Rows r0 .. r1 - 1 against row m. */
  function Column(s: Sides, f: Match, r0: nat, r1: nat, m: nat, p: Pair): nat
    requires s.Valid() && r1 <= |s.pos1| && m < |s.pos2|
    decreases r1
  {
    if r1 <= r0 then 0 else Column(s, f, r0, r1 - 1, m, p) + Cell(s, f, r1 - 1, m, p)
  }

  /** Rows r0 .. r1 - 1 against rows m0 .. m1 - 1. */
  function Block(s: Sides, f: Match, r0: nat, r1: nat, m0: nat, m1: nat, p: Pair): nat
    requires s.Valid() && r1 <= |s.pos1| && m1 <= |s.pos2|
    decreases r1
  {
    if r1 <= r0 then 0 else Block(s, f, r0, r1 - 1, m0, m1, p) + Row(s, f, r1 - 1, m0, m1, p)
  }

  /** The naive join: every row against every row. */
  function Joined(s: Sides, f: Match, p: Pair): nat
    requires s.Valid()
  {
    Block(s, f, 0, |s.pos1|, 0, |s.pos2|, p)
  }

  lemma {:induction false} RowSplit(s: Sides, f: Match, r: nat, m0: nat, m: nat, m1: nat, p: Pair)
    requires s.Valid() && r < |s.pos1| && m0 <= m <= m1 <= |s.pos2|
    ensures Row(s, f, r, m0, m1, p) == Row(s, f, r, m0, m, p) + Row(s, f, r, m, m1, p)
  {
    if m < m1 { RowSplit(s, f, r, m0, m, m1 - 1, p); }
  }

  lemma {:induction false} BlockSplitRows(s: Sides, f: Match, r0: nat, r: nat, r1: nat, m0: nat, m1: nat, p: Pair)
    requires s.Valid() && r0 <= r <= r1 <= |s.pos1| && m1 <= |s.pos2|
    ensures Block(s, f, r0, r1, m0, m1, p) == Block(s, f, r0, r, m0, m1, p) + Block(s, f, r, r1, m0, m1, p)
  {
    if r < r1 { BlockSplitRows(s, f, r0, r, r1 - 1, m0, m1, p); }
  }

  lemma {:induction false} BlockSplitColumns(s: Sides, f: Match, r0: nat, r1: nat, m0: nat, m: nat, m1: nat, p: Pair)
    requires s.Valid() && r1 <= |s.pos1| && m0 <= m <= m1 <= |s.pos2|
    ensures Block(s, f, r0, r1, m0, m1, p) == Block(s, f, r0, r1, m0, m, p) + Block(s, f, r0, r1, m, m1, p)
  {
    if r0 < r1 {
      BlockSplitColumns(s, f, r0, r1 - 1, m0, m, m1, p);
      RowSplit(s, f, r1 - 1, m0, m, m1, p);
    }
  }

  /** One column more, summed by rows or at once. */
  lemma {:induction false} BlockNextColumn(s: Sides, f: Match, r1: nat, m: nat, p: Pair)
    requires s.Valid() && r1 <= |s.pos1| && m < |s.pos2|
    ensures Block(s, f, 0, r1, 0, m + 1, p) == Block(s, f, 0, r1, 0, m, p) + Column(s, f, 0, r1, m, p)
  {
    if r1 > 0 { BlockNextColumn(s, f, r1 - 1, m, p); }
  }

  lemma {:induction false} BlockEmpty(s: Sides, f: Match, r0: nat, r1: nat, m: nat, p: Pair)
    requires s.Valid() && r1 <= |s.pos1| && m <= |s.pos2|
    ensures Block(s, f, r0, r1, m, m, p) == 0
  {
    if r0 < r1 { BlockEmpty(s, f, r0, r1 - 1, m, p); }
  }

  /** Where two criteria agree on all row values, so do the joins; where one implies the other, it joins no more. */
  lemma {:induction false} JoinCompare(s: Sides, f: Match, g: Match, r1: nat, p: Pair)
    requires s.Valid() && r1 <= |s.pos1|
    requires forall r, m :: 0 <= r < r1 && 0 <= m < |s.pos2| ==> (f(s.val1[r], s.val2[m]) ==> g(s.val1[r], s.val2[m]))
    ensures Block(s, f, 0, r1, 0, |s.pos2|, p) <= Block(s, g, 0, r1, 0, |s.pos2|, p)
  {
    if r1 > 0 {
      JoinCompare(s, f, g, r1 - 1, p);
      RowCompare(s, f, g, r1 - 1, |s.pos2|, p);
    }
  }

  lemma {:induction false} RowCompare(s: Sides, f: Match, g: Match, r: nat, m1: nat, p: Pair)
    requires s.Valid() && r < |s.pos1| && m1 <= |s.pos2|
    requires forall m :: 0 <= m < m1 ==> (f(s.val1[r], s.val2[m]) ==> g(s.val1[r], s.val2[m]))
    ensures Row(s, f, r, 0, m1, p) <= Row(s, g, r, 0, m1, p)
  {
    if m1 > 0 { RowCompare(s, f, g, r, m1 - 1, p); }
  }

  /** Two result vectors side by side. */
  function Zip(a: seq<int>, b: seq<int>): (z: seq<Pair>)
    requires |a| == |b|
    ensures |z| == |a|
  {
    seq(|a|, k requires 0 <= k < |a| => (a[k], b[k]))
  }

  lemma ZipAppend(a: seq<int>, b: seq<int>, x: int, y: int)
    requires |a| == |b|
    ensures Zip(a + [x], b + [y]) == Zip(a, b) + [(x, y)]
  {
  }

  ghost function Zipped(r1: Vector, r2: Vector): seq<Pair>
    requires r1.Readable() && r2.Readable() && r1.length == r2.length
    reads r1, r2, r1.buf, r2.buf
  {
    Zip(r1.Contents(), r2.Contents())
  }

  /** The result vectors hold every pair of positions as often as matching rows stand for it. */
  ghost predicate IsJoin(a: seq<int>, b: seq<int>, s: Sides, f: Match)
    requires s.Valid()
  {
    |a| == |b| && forall p: Pair :: JoinedAt(a, b, s, f, p)
  }

  ghost predicate JoinedAt(a: seq<int>, b: seq<int>, s: Sides, f: Match, p: Pair)
    requires s.Valid() && |a| == |b|
  {
    multiset(Zip(a, b))[p] == Joined(s, f, p)
  }

  // ---------- The order of the results ----------

  /** A row of the first side and a row of the second that matches it. */
  type RowPair = (nat, nat)

  /** The positions that a pair of rows stands for. */
  function Pairing(s: Sides, c: RowPair): Pair {
    if c.0 < |s.pos1| && c.1 < |s.pos2| then (s.pos1[c.0], s.pos2[c.1]) else (0, 0)
  }

  ghost function PairsOf(s: Sides, cells: seq<RowPair>): (z: seq<Pair>)
    ensures |z| == |cells| && forall k :: 0 <= k < |z| ==> z[k] == Pairing(s, cells[k])
  {
    seq(|cells|, k requires 0 <= k < |cells| => Pairing(s, cells[k]))
  }

  lemma PairsConcat(s: Sides, a: seq<RowPair>, b: seq<RowPair>)
    ensures PairsOf(s, a + b) == PairsOf(s, a) + PairsOf(s, b)
  {
  }

  /** `cells` stand for the pair p `n` times. */
  ghost predicate Times(s: Sides, cells: seq<RowPair>, p: Pair, n: nat) {
    multiset(PairsOf(s, cells))[p] == n
  }

  lemma TimesConcat(s: Sides, a: seq<RowPair>, b: seq<RowPair>, p: Pair, m: nat, n: nat)
    requires Times(s, a, p, m) && Times(s, b, p, n)
    ensures Times(s, a + b, p, m + n)
  {
    PairsConcat(s, a, b);
  }

  lemma TimesOne(s: Sides, c: RowPair, p: Pair)
    ensures Times(s, [c], p, if Pairing(s, c) == p then 1 else 0) && Times(s, [], p, 0)
  {
    assert PairsOf(s, [c]) == [Pairing(s, c)] && PairsOf(s, []) == [];
  }

  /** The result pairs `now` are the pairs `before` and then those of `cells`. */
  ghost predicate Added(before: seq<Pair>, now: seq<Pair>, s: Sides, cells: seq<RowPair>) {
    now == before + PairsOf(s, cells)
  }

  lemma AddedBoth(a: seq<Pair>, b: seq<Pair>, c: seq<Pair>, s: Sides, x: seq<RowPair>, y: seq<RowPair>)
    requires Added(a, b, s, x) && Added(b, c, s, y)
    ensures Added(a, c, s, x + y)
  {
    PairsConcat(s, x, y);
  }

  lemma AddedNone(a: seq<Pair>, s: Sides)
    ensures Added(a, a, s, [])
  {
  }

  /** Every pair of rows in `cells` comes before all that follow it. */
  ghost predicate Ascends(cells: seq<RowPair>, before: (RowPair, RowPair) -> bool) {
    forall i, j :: 0 <= i < j < |cells| ==> before(cells[i], cells[j])
  }

  lemma AscendsConcat(a: seq<RowPair>, b: seq<RowPair>, before: (RowPair, RowPair) -> bool)
    requires Ascends(a, before) && Ascends(b, before)
    requires forall i, j :: 0 <= i < |a| && 0 <= j < |b| ==> before(a[i], b[j])
    ensures Ascends(a + b, before)
  {
  }
}
