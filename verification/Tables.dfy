/** relational_insert and sort_table_by_primary_column of src/cs165_api.c, for a table without secondary indexes. */
module Tables {
  import opened Utils
  import opened Vectors
  import opened Sorting

  // ---------- Columns and rows as values ----------

  ghost predicate Rectangular(d: seq<seq<int>>, n: nat) {
    forall c :: 0 <= c < |d| ==> |d[c]| == n
  }

  function RowAt(d: seq<seq<int>>, r: nat): (row: seq<int>)
    requires forall c :: 0 <= c < |d| ==> r < |d[c]|
    ensures |row| == |d| && forall c :: 0 <= c < |d| ==> row[c] == d[c][r]
  {
    seq(|d|, c requires 0 <= c < |d| && r < |d[c]| => d[c][r])
  }

  /** The rows of a table of `n` rows given by its columns. */
  ghost function Rows(d: seq<seq<int>>, n: nat): (rows: seq<seq<int>>)
    requires Rectangular(d, n)
    ensures |rows| == n && forall r :: 0 <= r < n ==> rows[r] == RowAt(d, r)
  {
    seq(n, r requires 0 <= r < n => RowAt(d, r))
  }

  /** Every column grows by its value: the table grows by the row. */
  lemma AppendedRows(d: seq<seq<int>>, e: seq<seq<int>>, n: nat, row: seq<int>)
    requires Rectangular(d, n) && |e| == |d| == |row|
    requires forall c :: 0 <= c < |d| ==> e[c] == d[c] + [row[c]]
    ensures Rectangular(e, n + 1) && Rows(e, n + 1) == Rows(d, n) + [row]
  {
    forall r | 0 <= r < n + 1 ensures RowAt(e, r) == (Rows(d, n) + [row])[r] {
      if r == n { assert RowAt(e, r) == row; } else { assert RowAt(e, r) == RowAt(d, r); }
    }
  }

  /** Every column is read along the same positions: so are the rows, and none is torn or lost. */
  lemma GatheredRows(d: seq<seq<int>>, e: seq<seq<int>>, n: nat, p: seq<int>)
    requires Rectangular(d, n) && Positions(p, n) && InBounds(p, n) && |e| == |d|
    requires forall c :: 0 <= c < |d| ==> e[c] == Gather(d[c], p)
    ensures Rectangular(e, n) && Rows(e, n) == Gather(Rows(d, n), p)
    ensures multiset(Rows(e, n)) == multiset(Rows(d, n))
  {
    PositionsInBounds(p, n);
    forall r | 0 <= r < n ensures RowAt(e, r) == Gather(Rows(d, n), p)[r] {
      assert RowAt(e, r) == RowAt(d, p[r]);
    }
    GatherBag(Rows(d, n), p);
  }

  // ---------- The columns on the heap ----------

  /** Distinct vectors over distinct buffers. */
  ghost predicate Apart(cols: seq<Vector>)
    reads cols
  {
    forall i, j :: 0 <= i < j < |cols| ==> cols[i] != cols[j] && cols[i].buf != cols[j].buf
  }

  ghost predicate ColumnIs(cols: seq<Vector>, c: nat, data: seq<int>)
    requires c < |cols|
    reads cols[c], cols[c].buf
  {
    cols[c].Valid() && cols[c].Contents() == data
  }

  lemma SortedByPositions(s: seq<int>, p: seq<int>)
    requires AscendingAt(s, p)
    ensures Ascending(Gather(s, p))
  {
  }

  /** Columns over `d`, the first `i` of them already gathered along `p`. */
  ghost predicate Gathering(cols: seq<Vector>, sortedPos: Vector, d: seq<seq<int>>, p: seq<int>, n: nat, i: nat)
    reads cols, set c | c in cols :: c.buf
    reads sortedPos, sortedPos.buf
  {
    && |d| == |cols| && Rectangular(d, n) && Apart(cols)
    && sortedPos.Valid() && sortedPos.Contents() == p && |p| == n && InBounds(p, n)
    && forall c :: 0 <= c < |cols| ==> GatheredAt(cols, sortedPos, d, p, n, i, c)
  }

  ghost predicate GatheredAt(cols: seq<Vector>, sortedPos: Vector, d: seq<seq<int>>, p: seq<int>, n: nat, i: nat,
                             c: nat)
    requires c < |cols| == |d| && InBounds(p, |d[c]|)
    reads cols[c], cols[c].buf, sortedPos
  {
    && cols[c] != sortedPos && cols[c].buf != sortedPos.buf
    && ColumnIs(cols, c, if c < i then Gather(d[c], p) else d[c])
  }

  /** The loop body of sort_table_by_primary_column. */
  method GatherColumn(cols: seq<Vector>, sortedPos: Vector, i: nat, ghost d: seq<seq<int>>, ghost p: seq<int>,
                      ghost n: nat)
    requires Gathering(cols, sortedPos, d, p, n, i) && i < |cols|
    modifies cols[i].buf
    ensures Gathering(cols, sortedPos, d, p, n, i + 1)
  {
    assert GatheredAt(cols, sortedPos, d, p, n, i, i);
    SortVectorFromPositions(cols[i], sortedPos);
    ghost var j := i + 1;
    forall c | 0 <= c < |cols| ensures GatheredAt(cols, sortedPos, d, p, n, j, c) {
      assert old(GatheredAt(cols, sortedPos, d, p, n, i, c));
      assert c != i ==> cols[c].buf != cols[i].buf && cols[c].Contents() == old(cols[c].Contents());
    }
  }

  /** The loop of sort_table_by_primary_column. */
  method GatherColumns(cols: seq<Vector>, sortedPos: Vector, ghost d: seq<seq<int>>, ghost p: seq<int>, ghost n: nat)
    requires Gathering(cols, sortedPos, d, p, n, 0)
    modifies set c | c in cols :: c.buf
    ensures Gathering(cols, sortedPos, d, p, n, |cols|)
  {
    var i := 0;
    while i < |cols|
      invariant i <= |cols| && Gathering(cols, sortedPos, d, p, n, i)
    {
      GatherColumn(cols, sortedPos, i, d, p, n);
      i := i + 1;
    }
  }

  /** Columns over `d`, the first `i` of them already one value longer. */
  ghost predicate Appending(cols: seq<Vector>, d: seq<seq<int>>, row: seq<int>, i: nat)
    reads cols, set c | c in cols :: c.buf
  {
    |cols| == |d| == |row| && Apart(cols) && forall c :: 0 <= c < |cols| ==> AppendedAt(cols, d, row, i, c)
  }

  ghost predicate AppendedAt(cols: seq<Vector>, d: seq<seq<int>>, row: seq<int>, i: nat, c: nat)
    requires c < |cols| == |d| == |row|
    reads cols[c], cols[c].buf
  {
    ColumnIs(cols, c, if c < i then d[c] + [row[c]] else d[c])
  }

  /** The loop body of relational_insert. */
  method AppendValue(cols: seq<Vector>, i: nat, val: int, ghost d: seq<seq<int>>, ghost row: seq<int>)
    requires Appending(cols, d, row, i) && i < |cols| && val == row[i]
    modifies cols[i], cols[i].buf
    ensures Appending(cols, d, row, i + 1)
    ensures cols[i].buf == old(cols[i].buf) || fresh(cols[i].buf)
  {
    assert AppendedAt(cols, d, row, i, i);
    var at := cols[i].Insert(val);
    ghost var j := i + 1;
    forall c | 0 <= c < |cols| ensures AppendedAt(cols, d, row, j, c) {
      assert old(AppendedAt(cols, d, row, i, c));
    }
  }

  /** The insertion loop of relational_insert. */
  method AppendValues(cols: seq<Vector>, values: seq<int>, ghost d: seq<seq<int>>)
    requires Appending(cols, d, values, 0)
    modifies cols, set c | c in cols :: c.buf
    ensures Appending(cols, d, values, |cols|)
    ensures forall c :: 0 <= c < |cols| ==> cols[c].buf == old(cols[c].buf) || fresh(cols[c].buf)
  {
    var i := 0;
    while i < |cols|
      invariant i <= |cols| && Appending(cols, d, values, i)
      invariant forall c :: 0 <= c < |cols| ==> cols[c].buf == old(cols[c].buf) || fresh(cols[c].buf)
    {
      AppendValue(cols, i, values[i], d, values);
      i := i + 1;
    }
  }

  function AppendedAll(d: seq<seq<int>>, row: seq<int>): (e: seq<seq<int>>)
    requires |d| == |row|
    ensures |e| == |d| && forall c :: 0 <= c < |d| ==> e[c] == d[c] + [row[c]]
  {
    seq(|d|, c requires 0 <= c < |d| && |d| == |row| => d[c] + [row[c]])
  }

  function GatheredAll(d: seq<seq<int>>, p: seq<int>): (e: seq<seq<int>>)
    requires forall c :: 0 <= c < |d| ==> InBounds(p, |d[c]|)
    ensures |e| == |d| && forall c :: 0 <= c < |d| ==> e[c] == Gather(d[c], p)
  {
    seq(|d|, c requires 0 <= c < |d| && InBounds(p, |d[c]|) => Gather(d[c], p))
  }

  /** The positions that sort the primary column, and every column gathered along them. */
  method SortColumns(cols: seq<Vector>, primary: nat, ghost d: seq<seq<int>>, ghost n: nat) returns (ghost p: seq<int>)
    requires primary < |cols| == |d| && Apart(cols) && Rectangular(d, n) && n <= 0x8000_0000
    requires forall c :: 0 <= c < |cols| ==> ColumnIs(cols, c, d[c])
    modifies set c | c in cols :: c.buf
    ensures Apart(cols) && |p| == n && Positions(p, n) && InBounds(p, n)
    ensures forall c :: 0 <= c < |cols| ==> ColumnIs(cols, c, Gather(d[c], p))
    ensures Ascending(Gather(d[primary], p))
  {
    assert ColumnIs(cols, primary, d[primary]);
    var sortedPos := GetSortedPositions(cols[primary]);
    p := sortedPos.Contents();
    PositionsInBounds(p, n);
    forall c | 0 <= c < |cols| ensures GatheredAt(cols, sortedPos, d, p, n, 0, c) {
      assert ColumnIs(cols, c, d[c]);
    }
    GatherColumns(cols, sortedPos, d, p, n);
    forall c | 0 <= c < |cols| ensures ColumnIs(cols, c, Gather(d[c], p)) {
      assert GatheredAt(cols, sortedPos, d, p, n, |cols|, c);
    }
    SortedByPositions(d[primary], p);
  }

  class Table {
    const cols: seq<Vector>
    const primary: int
    ghost var data: seq<seq<int>>
    ghost var count: nat

    /** All columns have `count` values; `data` names them. */
    ghost predicate Valid()
      reads this, cols, set c | c in cols :: c.buf
    {
      && -1 <= primary < |cols| == |data|
      && Apart(cols) && Rectangular(data, count)
      && forall c :: 0 <= c < |cols| ==> ColumnIs(cols, c, data[c])
    }

    /** A table over fresh empty columns (create_table, create_column). */
    constructor (cols: seq<Vector>, primary: int)
      requires -1 <= primary < |cols| && Apart(cols)
      requires forall c :: 0 <= c < |cols| ==> ColumnIs(cols, c, [])
      ensures Valid() && this.cols == cols && this.primary == primary && count == 0
    {
      this.cols, this.primary, count := cols, primary, 0;
      data := seq(|cols|, c => []);
    }

    /** The insertion loop of relational_insert: one value into each column. */
    method InsertValues(values: seq<int>)
      requires Valid() && |values| == |cols|
      modifies this, cols, set c | c in cols :: c.buf
      ensures Valid() && count == old(count) + 1
      ensures Rows(data, count) == old(Rows(data, count)) + [values]
      ensures forall c :: 0 <= c < |cols| ==> cols[c].buf == old(cols[c].buf) || fresh(cols[c].buf)
    {
      ghost var d, n := data, count;
      forall c | 0 <= c < |cols| ensures AppendedAt(cols, d, values, 0, c) { assert ColumnIs(cols, c, d[c]); }
      AppendValues(cols, values, d);
      data, count := AppendedAll(d, values), n + 1;
      forall c | 0 <= c < |cols| ensures ColumnIs(cols, c, data[c]) { assert AppendedAt(cols, d, values, |cols|, c); }
      AppendedRows(d, data, n, values);
    }

    /** sort_table_by_primary_column: one permutation, taken from the primary column, sorts all columns. */
    method SortByPrimaryColumn()
      requires Valid() && primary != -1 && count <= 0x8000_0000
      modifies this, cols, set c | c in cols :: c.buf
      ensures Valid() && count == old(count)
      ensures multiset(Rows(data, count)) == multiset(old(Rows(data, count)))
      ensures Ascending(data[primary])
    {
      ghost var d, n := data, count;
      ghost var p := SortColumns(cols, primary, d, n);
      data := GatheredAll(d, p);
      GatheredRows(d, data, n, p);
    }

    /**
      relational_insert: the bag of rows gains exactly the new row, all columns stay equally long,
      and a primary column ends sorted.
     */
    method RelationalInsert(values: seq<int>)
      requires Valid() && |values| == |cols| && count < 0x8000_0000
      modifies this, cols, set c | c in cols :: c.buf
      ensures Valid() && count == old(count) + 1
      ensures multiset(Rows(data, count)) == multiset(old(Rows(data, count))) + multiset{values}
      ensures primary == -1 ==> Rows(data, count) == old(Rows(data, count)) + [values]
      ensures primary != -1 ==> Ascending(data[primary])
    {
      InsertValues(values);
      assert multiset(Rows(data, count)) == multiset(old(Rows(data, count))) + multiset{values};
      if primary > -1 {
        SortByPrimaryColumn();
      }
    }
  }
}
