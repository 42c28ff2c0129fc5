/** nested_join of src/cs165_api.c: a nested loop over pages of both sides. */
module NestedJoins {
  import opened Utils
  import opened Vectors
  import opened Joins

  const PAGESIZE: nat := 4096

  /** Both results under construction, apart from each other and from all inputs. */
  ghost predicate Outputs(r1: Vector, r2: Vector, inputs: set<object>)
    reads r1, r2
  {
    && r1.Valid() && r2.Valid() && r1.length == r2.length
    && r1 != r2 && r1.buf != r2.buf
    && r1 !in inputs && r2 !in inputs && r1.buf !in inputs && r2.buf !in inputs
  }

  /** The four input vectors hold `s`. */
  ghost predicate Inputs(s: Sides, pos1: Vector, val1: Vector, pos2: Vector, val2: Vector, inputs: set<object>)
    reads pos1, val1, pos2, val2, pos1.buf, val1.buf, pos2.buf, val2.buf
  {
    && pos1.Readable() && val1.Readable() && pos2.Readable() && val2.Readable() && s.Valid()
    && inputs == {pos1, val1, pos2, val2, pos1.buf, val1.buf, pos2.buf, val2.buf}
    && s == Sides(pos1.Contents(), val1.Contents(), pos2.Contents(), val2.Contents())
  }

  ghost predicate Sound(r1: Vector, r2: Vector, s: Sides, pos1: Vector, val1: Vector, pos2: Vector, val2: Vector,
                        inputs: set<object>)
    reads r1, r2, pos1, val1, pos2, val2, pos1.buf, val1.buf, pos2.buf, val2.buf
  {
    Inputs(s, pos1, val1, pos2, val2, inputs) && Outputs(r1, r2, inputs)
  }

  /** Both appends of a match. */
  method Emit(r1: Vector, r2: Vector, x: int, y: int, ghost inputs: set<object>)
    requires Outputs(r1, r2, inputs) && forall o :: o in inputs ==> allocated(o)
    modifies r1, r2, r1.buf, r2.buf
    ensures Outputs(r1, r2, inputs)
    ensures (r1.buf == old(r1.buf) || fresh(r1.buf)) && (r2.buf == old(r2.buf) || fresh(r2.buf))
    ensures Zip(r1.Contents(), r2.Contents()) == old(Zip(r1.Contents(), r2.Contents())) + [(x, y)]
  {
    var p := r1.Insert(x);
    var q := r2.Insert(y);
    ZipAppend(old(r1.Contents()), old(r2.Contents()), x, y);
  }

  // ---------- The pairs of rows that match, in the order in which the loops reach them ----------

  /** Row r against rows j .. m - 1. */
  function RowCells(s: Sides, r: nat, j: nat, m: nat): seq<RowPair>
    requires s.Valid() && r < |s.pos1| && m <= |s.pos2|
    decreases m
  {
    if m <= j then [] else RowCells(s, r, j, m - 1) + if s.val1[r] == s.val2[m - 1] then [(r, m - 1)] else []
  }

  /** Rows i .. r - 1 against rows j .. m - 1. */
  function BlockCells(s: Sides, i: nat, r: nat, j: nat, m: nat): seq<RowPair>
    requires s.Valid() && r <= |s.pos1| && m <= |s.pos2|
    decreases r
  {
    if r <= i then [] else BlockCells(s, i, r - 1, j, m) + RowCells(s, r - 1, j, m)
  }

  /** Where the page begins that row n - 1 is on. */
  function PageStart(n: nat): (q: nat)
    requires n > 0
    ensures q < n <= q + PAGESIZE && q % PAGESIZE == 0
  {
    (n - 1) / PAGESIZE * PAGESIZE
  }

  lemma PageStartIs(q: nat, n: nat)
    requires q % PAGESIZE == 0 && q < n <= q + PAGESIZE
    ensures PageStart(n) == q
  {
  }

  /** Rows i .. r - 1 against the first j rows, page by page. */
  function PageRowCells(s: Sides, i: nat, r: nat, j: nat): seq<RowPair>
    requires s.Valid() && r <= |s.pos1| && j <= |s.pos2|
    decreases j
  {
    if j == 0 then [] else PageRowCells(s, i, r, PageStart(j)) + BlockCells(s, i, r, PageStart(j), j)
  }

  /** The first i rows against all rows, page by page. */
  function PagedCells(s: Sides, i: nat): seq<RowPair>
    requires s.Valid() && i <= |s.pos1|
    decreases i
  {
    if i == 0 then [] else PagedCells(s, PageStart(i)) + PageRowCells(s, PageStart(i), i, |s.pos2|)
  }

  // ---------- The loops add them ----------

  lemma AddCell(a: seq<Pair>, b: seq<Pair>, c: seq<Pair>, s: Sides, r: nat, j: nat, m: nat)
    requires s.Valid() && r < |s.pos1| && j <= m < |s.pos2| && Added(a, b, s, RowCells(s, r, j, m))
    requires c == b + if s.val1[r] == s.val2[m] then [(s.pos1[r], s.pos2[m])] else []
    ensures Added(a, c, s, RowCells(s, r, j, m + 1))
  {
    AddedBoth(a, b, c, s, RowCells(s, r, j, m), if s.val1[r] == s.val2[m] then [(r, m)] else []);
  }

  lemma AddRow(a: seq<Pair>, b: seq<Pair>, c: seq<Pair>, s: Sides, i: nat, r: nat, j: nat, m: nat)
    requires s.Valid() && i <= r < |s.pos1| && m <= |s.pos2|
    requires Added(a, b, s, BlockCells(s, i, r, j, m)) && Added(b, c, s, RowCells(s, r, j, m))
    ensures Added(a, c, s, BlockCells(s, i, r + 1, j, m))
  {
    AddedBoth(a, b, c, s, BlockCells(s, i, r, j, m), RowCells(s, r, j, m));
  }

  lemma AddPage(a: seq<Pair>, b: seq<Pair>, c: seq<Pair>, s: Sides, i: nat, r: nat, j: nat, m: nat)
    requires s.Valid() && r == PageEnd(i, |s.pos1|) && m == PageEnd(j, |s.pos2|)
    requires j % PAGESIZE == 0 && j < |s.pos2|
    requires Added(a, b, s, PageRowCells(s, i, PageEnd(i, |s.pos1|), j)) && Added(b, c, s, BlockCells(s, i, r, j, m))
    ensures Added(a, c, s, PageRowCells(s, i, PageEnd(i, |s.pos1|), PageEnd(j, |s.pos2|)))
  {
    PageEndNext(j, |s.pos2|);
    PageStartIs(j, m);
    AddedBoth(a, b, c, s, PageRowCells(s, i, r, j), BlockCells(s, i, r, j, m));
  }

  lemma AddPageRow(a: seq<Pair>, b: seq<Pair>, c: seq<Pair>, s: Sides, i: nat, r: nat)
    requires s.Valid() && i % PAGESIZE == 0 && i < r <= |s.pos1| && r <= i + PAGESIZE
    requires Added(a, b, s, PagedCells(s, i)) && Added(b, c, s, PageRowCells(s, i, r, |s.pos2|))
    ensures Added(a, c, s, PagedCells(s, r))
  {
    PageStartIs(i, r);
    AddedBoth(a, b, c, s, PagedCells(s, i), PageRowCells(s, i, r, |s.pos2|));
  }

  /** The body of the loops: row r against row m, after rows j .. m - 1. */
  method JoinCell(r1: Vector, r2: Vector, pos1: Vector, val1: Vector, pos2: Vector, val2: Vector,
                  r: nat, m: nat, ghost j: nat, ghost before: seq<Pair>, ghost s: Sides, ghost inputs: set<object>)
    requires Sound(r1, r2, s, pos1, val1, pos2, val2, inputs)
    requires r < pos1.length && j <= m < pos2.length && Added(before, Zipped(r1, r2), s, RowCells(s, r, j, m))
    modifies r1, r2, r1.buf, r2.buf
    ensures Sound(r1, r2, s, pos1, val1, pos2, val2, inputs)
    ensures (r1.buf == old(r1.buf) || fresh(r1.buf)) && (r2.buf == old(r2.buf) || fresh(r2.buf))
    ensures Added(before, Zipped(r1, r2), s, RowCells(s, r, j, m + 1))
  {
    ghost var z := Zipped(r1, r2);
    assert val1.buf[r] == s.val1[r] && val2.buf[m] == s.val2[m] && pos1.buf[r] == s.pos1[r] && pos2.buf[m] == s.pos2[m];
    if val1.buf[r] == val2.buf[m] {
      Emit(r1, r2, pos1.buf[r], pos2.buf[m], inputs);
    }
    AddCell(before, z, Zipped(r1, r2), s, r, j, m);
  }

  /** The innermost loop: row r against rows j .. limJ - 1, after rows i .. r - 1. */
  method JoinRow(r1: Vector, r2: Vector, pos1: Vector, val1: Vector, pos2: Vector, val2: Vector,
                 r: nat, j: nat, limJ: nat, ghost i: nat, ghost before: seq<Pair>, ghost s: Sides,
                 ghost inputs: set<object>)
    requires Sound(r1, r2, s, pos1, val1, pos2, val2, inputs)
    requires i <= r < pos1.length && j <= limJ <= pos2.length
    requires Added(before, Zipped(r1, r2), s, BlockCells(s, i, r, j, limJ))
    modifies r1, r2, r1.buf, r2.buf
    ensures Sound(r1, r2, s, pos1, val1, pos2, val2, inputs)
    ensures (r1.buf == old(r1.buf) || fresh(r1.buf)) && (r2.buf == old(r2.buf) || fresh(r2.buf))
    ensures Added(before, Zipped(r1, r2), s, BlockCells(s, i, r + 1, j, limJ))
  {
    ghost var z := Zipped(r1, r2);
    AddedNone(z, s);
    var m := j;
    while m < limJ
      invariant j <= m <= limJ
      invariant Sound(r1, r2, s, pos1, val1, pos2, val2, inputs)
      invariant (r1.buf == old(r1.buf) || fresh(r1.buf)) && (r2.buf == old(r2.buf) || fresh(r2.buf))
      invariant Added(z, Zipped(r1, r2), s, RowCells(s, r, j, m))
    {
      JoinCell(r1, r2, pos1, val1, pos2, val2, r, m, j, z, s, inputs);
      m := m + 1;
    }
    AddRow(before, z, Zipped(r1, r2), s, i, r, j, limJ);
  }

  /** The two inner loops: rows i .. limR - 1 against rows j .. limJ - 1. */
  method JoinPages(r1: Vector, r2: Vector, pos1: Vector, val1: Vector, pos2: Vector, val2: Vector,
                   i: nat, limR: nat, j: nat, limJ: nat, ghost s: Sides, ghost inputs: set<object>)
    requires Sound(r1, r2, s, pos1, val1, pos2, val2, inputs)
    requires i <= limR <= pos1.length && j <= limJ <= pos2.length
    modifies r1, r2, r1.buf, r2.buf
    ensures Sound(r1, r2, s, pos1, val1, pos2, val2, inputs)
    ensures (r1.buf == old(r1.buf) || fresh(r1.buf)) && (r2.buf == old(r2.buf) || fresh(r2.buf))
    ensures Added(old(Zipped(r1, r2)), Zipped(r1, r2), s, BlockCells(s, i, limR, j, limJ))
  {
    ghost var before := Zipped(r1, r2);
    AddedNone(before, s);
    var r := i;
    while r < limR
      invariant i <= r <= limR
      invariant Sound(r1, r2, s, pos1, val1, pos2, val2, inputs)
      invariant (r1.buf == old(r1.buf) || fresh(r1.buf)) && (r2.buf == old(r2.buf) || fresh(r2.buf))
      invariant Added(before, Zipped(r1, r2), s, BlockCells(s, i, r, j, limJ))
    {
      JoinRow(r1, r2, pos1, val1, pos2, val2, r, j, limJ, i, before, s, inputs);
      r := r + 1;
    }
  }

  /** One round of the loop over the pages of the second side. */
  method JoinPage(r1: Vector, r2: Vector, pos1: Vector, val1: Vector, pos2: Vector, val2: Vector,
                  i: nat, j: nat, ghost before: seq<Pair>, ghost s: Sides, ghost inputs: set<object>)
    requires Sound(r1, r2, s, pos1, val1, pos2, val2, inputs) && i < pos1.length && j < pos2.length && j % PAGESIZE == 0
    requires Added(before, Zipped(r1, r2), s, PageRowCells(s, i, PageEnd(i, |s.pos1|), j))
    modifies r1, r2, r1.buf, r2.buf
    ensures Sound(r1, r2, s, pos1, val1, pos2, val2, inputs)
    ensures (r1.buf == old(r1.buf) || fresh(r1.buf)) && (r2.buf == old(r2.buf) || fresh(r2.buf))
    ensures Added(before, Zipped(r1, r2), s, PageRowCells(s, i, PageEnd(i, |s.pos1|), PageEnd(j, |s.pos2|)))
  {
    var limR := if i + PAGESIZE > pos1.length then pos1.length else i + PAGESIZE;
    var limJ := if j + PAGESIZE > pos2.length then pos2.length else j + PAGESIZE;
    ghost var z := Zipped(r1, r2);
    JoinPages(r1, r2, pos1, val1, pos2, val2, i, limR, j, limJ, s, inputs);
    AddPage(before, z, Zipped(r1, r2), s, i, limR, j, limJ);
  }

  /** Where the page from row i on ends. */
  function PageEnd(i: nat, n: nat): (m: nat)
    ensures m <= n
  {
    Min(i + PAGESIZE, n)
  }

  lemma PageEndNext(i: nat, n: nat)
    requires i < n && i % PAGESIZE == 0
    ensures (i + PAGESIZE) % PAGESIZE == 0 && PageEnd(i, n) == Min(i + PAGESIZE, n) && i < PageEnd(i, n)
  {
  }

  /** The loop over the pages of the second side, for one page of the first. */
  method JoinPageRow(r1: Vector, r2: Vector, pos1: Vector, val1: Vector, pos2: Vector, val2: Vector,
                     i: nat, ghost s: Sides, ghost inputs: set<object>)
    requires Sound(r1, r2, s, pos1, val1, pos2, val2, inputs) && i < pos1.length
    modifies r1, r2, r1.buf, r2.buf
    ensures Sound(r1, r2, s, pos1, val1, pos2, val2, inputs)
    ensures (r1.buf == old(r1.buf) || fresh(r1.buf)) && (r2.buf == old(r2.buf) || fresh(r2.buf))
    ensures Added(old(Zipped(r1, r2)), Zipped(r1, r2), s, PageRowCells(s, i, PageEnd(i, |s.pos1|), |s.pos2|))
  {
    ghost var before, n2, k := Zipped(r1, r2), |s.pos2|, 0;
    var j := 0;
    AddedNone(before, s);
    while j < pos2.length
      invariant Sound(r1, r2, s, pos1, val1, pos2, val2, inputs)
      invariant (r1.buf == old(r1.buf) || fresh(r1.buf)) && (r2.buf == old(r2.buf) || fresh(r2.buf))
      invariant j % PAGESIZE == 0 && k == Min(j, n2)
      invariant Added(before, Zipped(r1, r2), s, PageRowCells(s, i, PageEnd(i, |s.pos1|), k))
    {
      JoinPage(r1, r2, pos1, val1, pos2, val2, i, j, before, s, inputs);
      PageEndNext(j, n2);
      k := PageEnd(j, n2);
      j := j + PAGESIZE;
    }
    assert k == n2;
  }

  /** One round of the loop over the pages of the first side. */
  method JoinNextPage(r1: Vector, r2: Vector, pos1: Vector, val1: Vector, pos2: Vector, val2: Vector,
                      i: nat, ghost s: Sides, ghost inputs: set<object>)
    requires Sound(r1, r2, s, pos1, val1, pos2, val2, inputs) && i < pos1.length && i % PAGESIZE == 0
    requires Added([], Zipped(r1, r2), s, PagedCells(s, i))
    modifies r1, r2, r1.buf, r2.buf
    ensures Sound(r1, r2, s, pos1, val1, pos2, val2, inputs)
    ensures (r1.buf == old(r1.buf) || fresh(r1.buf)) && (r2.buf == old(r2.buf) || fresh(r2.buf))
    ensures Added([], Zipped(r1, r2), s, PagedCells(s, PageEnd(i, |s.pos1|)))
  {
    ghost var z := Zipped(r1, r2);
    JoinPageRow(r1, r2, pos1, val1, pos2, val2, i, s, inputs);
    PageEndNext(i, |s.pos1|);
    AddPageRow([], z, Zipped(r1, r2), s, i, PageEnd(i, |s.pos1|));
  }

  /** The loop over the pages of the first side. */
  method JoinAllPages(r1: Vector, r2: Vector, pos1: Vector, val1: Vector, pos2: Vector, val2: Vector,
                      ghost s: Sides, ghost inputs: set<object>)
    requires Sound(r1, r2, s, pos1, val1, pos2, val2, inputs) && Zipped(r1, r2) == []
    modifies r1, r2, r1.buf, r2.buf
    ensures Sound(r1, r2, s, pos1, val1, pos2, val2, inputs)
    ensures (r1.buf == old(r1.buf) || fresh(r1.buf)) && (r2.buf == old(r2.buf) || fresh(r2.buf))
    ensures Added([], Zipped(r1, r2), s, PagedCells(s, |s.pos1|))
  {
    var i := 0;
    ghost var k, n1 := 0, |s.pos1|;
    AddedNone([], s);
    while i < pos1.length
      invariant Sound(r1, r2, s, pos1, val1, pos2, val2, inputs)
      invariant (r1.buf == old(r1.buf) || fresh(r1.buf)) && (r2.buf == old(r2.buf) || fresh(r2.buf))
      invariant i % PAGESIZE == 0 && k == Min(i, n1)
      invariant Added([], Zipped(r1, r2), s, PagedCells(s, k))
    {
      JoinNextPage(r1, r2, pos1, val1, pos2, val2, i, s, inputs);
      PageEndNext(i, n1);
      k := PageEnd(i, n1);
      i := i + PAGESIZE;
    }
    assert k == n1;
  }

  /** nested_join: every pair of rows with equal values exactly once, page by page, whatever the lengths. */
  method NestedJoin(pos1: Vector, val1: Vector, pos2: Vector, val2: Vector) returns (r1: Vector, r2: Vector)
    requires pos1.Readable() && val1.Readable() && pos2.Readable() && val2.Readable()
    requires pos1.length <= val1.length && pos2.length <= val2.length
    ensures fresh(r1) && fresh(r2) && r1.Valid() && r2.Valid()
    ensures var s := Sides(pos1.Contents(), val1.Contents(), pos2.Contents(), val2.Contents());
            && IsJoin(r1.Contents(), r2.Contents(), s, Equal)
            && Zip(r1.Contents(), r2.Contents()) == PairsOf(s, PagedCells(s, |s.pos1|))
  {
    ghost var s := Sides(pos1.Contents(), val1.Contents(), pos2.Contents(), val2.Contents());
    ghost var inputs: set<object> := {pos1, val1, pos2, val2, pos1.buf, val1.buf, pos2.buf, val2.buf};
    r1 := new Vector(0);
    r2 := new Vector(0);
    JoinAllPages(r1, r2, pos1, val1, pos2, val2, s, inputs);
    PagedIsJoin(r1.Contents(), r2.Contents(), s);
  }

  // ---------- They are the equi-join, in page order ----------

  lemma {:induction false} RowCount(s: Sides, r: nat, j: nat, m: nat, p: Pair)
    requires s.Valid() && r < |s.pos1| && m <= |s.pos2|
    ensures Times(s, RowCells(s, r, j, m), p, Row(s, Equal, r, j, m, p))
  {
    TimesOne(s, (0, 0), p);
    if m > j {
      RowCount(s, r, j, m - 1, p);
      TimesOne(s, (r, m - 1), p);
      var last := if s.val1[r] == s.val2[m - 1] then [(r, m - 1)] else [];
      TimesConcat(s, RowCells(s, r, j, m - 1), last, p, Row(s, Equal, r, j, m - 1, p), Cell(s, Equal, r, m - 1, p));
    }
  }

  lemma {:induction false} BlockCount(s: Sides, i: nat, r: nat, j: nat, m: nat, p: Pair)
    requires s.Valid() && r <= |s.pos1| && m <= |s.pos2|
    ensures Times(s, BlockCells(s, i, r, j, m), p, Block(s, Equal, i, r, j, m, p))
  {
    TimesOne(s, (0, 0), p);
    if r > i {
      BlockCount(s, i, r - 1, j, m, p);
      RowCount(s, r - 1, j, m, p);
      TimesConcat(s, BlockCells(s, i, r - 1, j, m), RowCells(s, r - 1, j, m), p,
                  Block(s, Equal, i, r - 1, j, m, p), Row(s, Equal, r - 1, j, m, p));
    }
  }

  lemma {:induction false} PageRowCount(s: Sides, i: nat, r: nat, j: nat, p: Pair)
    requires s.Valid() && r <= |s.pos1| && j <= |s.pos2|
    ensures Times(s, PageRowCells(s, i, r, j), p, Block(s, Equal, i, r, 0, j, p))
    decreases j
  {
    if j == 0 {
      TimesOne(s, (0, 0), p);
      BlockEmpty(s, Equal, i, r, 0, p);
    } else {
      var q := PageStart(j);
      PageRowCount(s, i, r, q, p);
      BlockCount(s, i, r, q, j, p);
      TimesConcat(s, PageRowCells(s, i, r, q), BlockCells(s, i, r, q, j), p,
                  Block(s, Equal, i, r, 0, q, p), Block(s, Equal, i, r, q, j, p));
      BlockSplitColumns(s, Equal, i, r, 0, q, j, p);
    }
  }

  lemma {:induction false} PagedCount(s: Sides, i: nat, p: Pair)
    requires s.Valid() && i <= |s.pos1|
    ensures Times(s, PagedCells(s, i), p, Block(s, Equal, 0, i, 0, |s.pos2|, p))
    decreases i
  {
    if i == 0 {
      TimesOne(s, (0, 0), p);
    } else {
      var q, n := PageStart(i), |s.pos2|;
      PagedCount(s, q, p);
      PageRowCount(s, q, i, n, p);
      TimesConcat(s, PagedCells(s, q), PageRowCells(s, q, i, n), p,
                  Block(s, Equal, 0, q, 0, n, p), Block(s, Equal, q, i, 0, n, p));
      BlockSplitRows(s, Equal, 0, q, i, 0, n, p);
    }
  }

  lemma PagedIsJoin(a: seq<int>, b: seq<int>, s: Sides)
    requires s.Valid() && |a| == |b| && Added([], Zip(a, b), s, PagedCells(s, |s.pos1|))
    ensures IsJoin(a, b, s, Equal) && Zip(a, b) == PairsOf(s, PagedCells(s, |s.pos1|))
  {
    forall p: Pair ensures JoinedAt(a, b, s, Equal, p) {
      PagedCount(s, |s.pos1|, p);
    }
  }

  /** Page by page of the first side, then of the second, then row by row; pages have 4096 rows. */
  predicate PageBefore(x: RowPair, y: RowPair) {
    if x.0 / 4096 != y.0 / 4096 then x.0 < y.0
    else if x.1 / 4096 != y.1 / 4096 then x.1 < y.1
    else x.0 < y.0 || (x.0 == y.0 && x.1 < y.1)
  }

  /** `cells` are the matching pairs of rows i .. r - 1 and j .. m - 1. */
  ghost predicate Matches(s: Sides, cells: seq<RowPair>, i: nat, r: nat, j: nat, m: nat)
    requires s.Valid() && r <= |s.pos1| && m <= |s.pos2|
  {
    forall x, y :: (x, y) in cells <==> i <= x < r && j <= y < m && s.val1[x] == s.val2[y]
  }

  lemma MatchesRows(s: Sides, a: seq<RowPair>, b: seq<RowPair>, i: nat, q: nat, r: nat, j: nat, m: nat)
    requires s.Valid() && i <= q <= r <= |s.pos1| && m <= |s.pos2|
    requires Matches(s, a, i, q, j, m) && Matches(s, b, q, r, j, m)
    ensures Matches(s, a + b, i, r, j, m)
  {
  }

  lemma MatchesColumns(s: Sides, a: seq<RowPair>, b: seq<RowPair>, i: nat, r: nat, j: nat, q: nat, m: nat)
    requires s.Valid() && r <= |s.pos1| && j <= q <= m <= |s.pos2|
    requires Matches(s, a, i, r, j, q) && Matches(s, b, i, r, q, m)
    ensures Matches(s, a + b, i, r, j, m)
  {
  }

  /** What membership says of every entry. */
  ghost predicate Inside(cells: seq<RowPair>, i: nat, r: nat, j: nat, m: nat) {
    forall k :: 0 <= k < |cells| ==> i <= cells[k].0 < r && j <= cells[k].1 < m
  }

  lemma MatchesInside(s: Sides, cells: seq<RowPair>, i: nat, r: nat, j: nat, m: nat)
    requires s.Valid() && r <= |s.pos1| && m <= |s.pos2| && Matches(s, cells, i, r, j, m)
    ensures Inside(cells, i, r, j, m)
  {
    assert forall k :: 0 <= k < |cells| ==> (cells[k].0, cells[k].1) in cells;
  }

  lemma NextColumn(x: RowPair, y: RowPair)
    requires x.0 == y.0 && x.1 < y.1
    ensures PageBefore(x, y)
  {
  }

  lemma NextRow(x: RowPair, y: RowPair, i: nat, j: nat)
    requires i % 4096 == 0 && i <= x.0 < y.0 < i + 4096
    requires j % 4096 == 0 && j <= x.1 < j + 4096 && j <= y.1 < j + 4096
    ensures PageBefore(x, y)
  {
    assert x.0 / 4096 == i / 4096 && y.0 / 4096 == i / 4096 && x.1 / 4096 == j / 4096 && y.1 / 4096 == j / 4096;
  }

  lemma NextPage(x: RowPair, y: RowPair, i: nat, q: nat)
    requires i % 4096 == 0 && i <= x.0 < i + 4096 && i <= y.0 < i + 4096 && q % 4096 == 0 && x.1 < q <= y.1
    ensures PageBefore(x, y)
  {
    assert x.0 / 4096 == i / 4096 && y.0 / 4096 == i / 4096;
  }

  lemma NextPageRow(x: RowPair, y: RowPair, q: nat)
    requires q % 4096 == 0 && x.0 < q <= y.0
    ensures PageBefore(x, y)
  {
  }

  /** The matching pairs of rows i .. r - 1 and j .. m - 1, in page order. */
  ghost predicate InPageOrder(s: Sides, cells: seq<RowPair>, i: nat, r: nat, j: nat, m: nat)
    requires s.Valid() && r <= |s.pos1| && m <= |s.pos2|
  {
    Matches(s, cells, i, r, j, m) && Ascends(cells, PageBefore)
  }

  lemma NoneInOrder(s: Sides, i: nat, r: nat, j: nat, m: nat)
    requires s.Valid() && r <= |s.pos1| && m <= |s.pos2| && (r <= i || m <= j)
    ensures InPageOrder(s, [], i, r, j, m)
  {
  }

  lemma ColumnNext(s: Sides, a: seq<RowPair>, b: seq<RowPair>, r: nat, j: nat, m: nat)
    requires s.Valid() && r < |s.pos1| && j <= m < |s.pos2|
    requires InPageOrder(s, a, r, r + 1, j, m)
    requires b == if s.val1[r] == s.val2[m] then [(r, m)] else []
    ensures InPageOrder(s, a + b, r, r + 1, j, m + 1)
  {
    MatchesInside(s, a, r, r + 1, j, m);
    MatchesColumns(s, a, b, r, r + 1, j, m, m + 1);
    forall k, l | 0 <= k < |a| && 0 <= l < |b| ensures PageBefore(a[k], b[l]) { NextColumn(a[k], b[l]); }
    AscendsConcat(a, b, PageBefore);
  }

  lemma RowNext(s: Sides, a: seq<RowPair>, b: seq<RowPair>, i: nat, r: nat, j: nat, m: nat)
    requires s.Valid() && i <= r < |s.pos1| && j <= m <= |s.pos2|
    requires i % 4096 == 0 && r < i + 4096 && j % 4096 == 0 && m <= j + 4096
    requires InPageOrder(s, a, i, r, j, m)
    requires InPageOrder(s, b, r, r + 1, j, m)
    ensures InPageOrder(s, a + b, i, r + 1, j, m)
  {
    MatchesInside(s, a, i, r, j, m);
    MatchesInside(s, b, r, r + 1, j, m);
    MatchesRows(s, a, b, i, r, r + 1, j, m);
    forall k, l | 0 <= k < |a| && 0 <= l < |b| ensures PageBefore(a[k], b[l]) { NextRow(a[k], b[l], i, j); }
    AscendsConcat(a, b, PageBefore);
  }

  lemma PageNext(s: Sides, a: seq<RowPair>, b: seq<RowPair>, i: nat, r: nat, q: nat, j: nat)
    requires s.Valid() && i <= r <= |s.pos1| && q <= j <= |s.pos2| && i % 4096 == 0 && r <= i + 4096 && q % 4096 == 0
    requires InPageOrder(s, a, i, r, 0, q)
    requires InPageOrder(s, b, i, r, q, j)
    ensures InPageOrder(s, a + b, i, r, 0, j)
  {
    MatchesInside(s, a, i, r, 0, q);
    MatchesInside(s, b, i, r, q, j);
    MatchesColumns(s, a, b, i, r, 0, q, j);
    forall k, l | 0 <= k < |a| && 0 <= l < |b| ensures PageBefore(a[k], b[l]) { NextPage(a[k], b[l], i, q); }
    AscendsConcat(a, b, PageBefore);
  }

  lemma PageRowNext(s: Sides, a: seq<RowPair>, b: seq<RowPair>, q: nat, i: nat)
    requires s.Valid() && q <= i <= |s.pos1| && q % 4096 == 0
    requires InPageOrder(s, a, 0, q, 0, |s.pos2|)
    requires InPageOrder(s, b, q, i, 0, |s.pos2|)
    ensures InPageOrder(s, a + b, 0, i, 0, |s.pos2|)
  {
    MatchesInside(s, a, 0, q, 0, |s.pos2|);
    MatchesInside(s, b, q, i, 0, |s.pos2|);
    MatchesRows(s, a, b, 0, q, i, 0, |s.pos2|);
    forall k, l | 0 <= k < |a| && 0 <= l < |b| ensures PageBefore(a[k], b[l]) { NextPageRow(a[k], b[l], q); }
    AscendsConcat(a, b, PageBefore);
  }

  lemma {:induction false} RowOrder(s: Sides, r: nat, j: nat, m: nat)
    requires s.Valid() && r < |s.pos1| && j <= m <= |s.pos2|
    ensures InPageOrder(s, RowCells(s, r, j, m), r, r + 1, j, m)
  {
    NoneInOrder(s, r, r + 1, j, j);
    if m > j {
      RowOrder(s, r, j, m - 1);
      var a, b := RowCells(s, r, j, m - 1), if s.val1[r] == s.val2[m - 1] then [(r, m - 1)] else [];
      ColumnNext(s, a, b, r, j, m - 1);
    }
  }

  /** Inside one page of each side. */
  lemma {:induction false} BlockOrder(s: Sides, i: nat, r: nat, j: nat, m: nat)
    requires s.Valid() && i <= r <= |s.pos1| && j <= m <= |s.pos2|
    requires i % 4096 == 0 && r <= i + 4096 && j % 4096 == 0 && m <= j + 4096
    ensures InPageOrder(s, BlockCells(s, i, r, j, m), i, r, j, m)
  {
    NoneInOrder(s, i, i, j, m);
    if r > i {
      BlockOrder(s, i, r - 1, j, m);
      RowOrder(s, r - 1, j, m);
      var a, b := BlockCells(s, i, r - 1, j, m), RowCells(s, r - 1, j, m);
      RowNext(s, a, b, i, r - 1, j, m);
    }
  }

  /** Inside one page of the first side. */
  lemma {:induction false} PageRowOrder(s: Sides, i: nat, r: nat, j: nat)
    requires s.Valid() && i <= r <= |s.pos1| && j <= |s.pos2| && i % 4096 == 0 && r <= i + 4096
    ensures InPageOrder(s, PageRowCells(s, i, r, j), i, r, 0, j)
    decreases j
  {
    NoneInOrder(s, i, r, 0, 0);
    if j > 0 {
      var q := PageStart(j);
      PageRowOrder(s, i, r, q);
      BlockOrder(s, i, r, q, j);
      var a, b := PageRowCells(s, i, r, q), BlockCells(s, i, r, q, j);
      PageNext(s, a, b, i, r, q, j);
    }
  }

  lemma {:induction false} PagedOrderUpTo(s: Sides, i: nat)
    requires s.Valid() && i <= |s.pos1|
    ensures InPageOrder(s, PagedCells(s, i), 0, i, 0, |s.pos2|)
    decreases i
  {
    NoneInOrder(s, 0, 0, 0, |s.pos2|);
    if i > 0 {
      var q := PageStart(i);
      PagedOrderUpTo(s, q);
      PageRowOrder(s, q, i, |s.pos2|);
      var a, b := PagedCells(s, q), PageRowCells(s, q, i, |s.pos2|);
      PageRowNext(s, a, b, q, i);
    }
  }

  /** nested_join reports exactly the pairs of rows with equal values, in page order: that leaves one result only. */
  lemma PagedOrder(s: Sides)
    requires s.Valid()
    ensures forall x, y :: (x, y) in PagedCells(s, |s.pos1|) <==>
              0 <= x < |s.pos1| && 0 <= y < |s.pos2| && s.val1[x] == s.val2[y]
    ensures Ascends(PagedCells(s, |s.pos1|), PageBefore)
  {
    PagedOrderUpTo(s, |s.pos1|);
  }
}
