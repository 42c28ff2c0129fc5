/** bt_search_node and select_one_btree: the leaf chain walk returns exactly the records in range, in order. */
module BTreeSelect {
  import opened Records
  import opened BTreeModel
  import opened BTreeOrder
  import opened BTreeHeap
  import opened BTreeLevels
  import opened BTreeIndex
  import opened Vectors

  // ---------- Which leaf a search reaches ----------

  /** The child bt_search_node descends to. */
  function SearchChild(t: Tree, d: int): (i: nat)
    requires t.recs != []
    ensures i < |t.recs|
  {
    var i := LowerIndex(t.recs, d);
    if i > 0 then i - 1 else 0
  }

  /** The number of the leaf bt_search_node reaches. */
  function Reached(t: Tree, d: int, h: nat): nat
    requires Body(t, h)
    decreases h
  {
    if h == 0 then 0
    else
      var i := SearchChild(t, d);
      assert Filled(t.kids[i], h - 1);
      |AllRows(t.kids[..i])| + Reached(t.kids[i], d, h - 1)
  }

  lemma {:induction false} AllRowsConcat(a: seq<Tree>, b: seq<Tree>)
    ensures AllRows(a + b) == AllRows(a) + AllRows(b)
  {
    if a == [] {
      assert a + b == b;
    } else {
      assert (a + b)[1..] == a[1..] + b;
      AllRowsConcat(a[1..], b);
    }
  }

  lemma AllRowsAt(ts: seq<Tree>, i: nat)
    requires i < |ts|
    ensures AllRows(ts) == AllRows(ts[..i]) + Rows(ts[i]) + AllRows(ts[i + 1..])
  {
    assert ts == ts[..i] + ts[i..];
    AllRowsConcat(ts[..i], ts[i..]);
  }

  ghost predicate AllBelow(s: seq<Record>, d: int) { forall r :: r in s ==> r.val < d }

  ghost predicate AllFrom(s: seq<Record>, d: int) { forall r :: r in s ==> r.val >= d }

  /** A child search leaves smaller records on its left and no smaller ones on its right. */
  lemma ChildSplits(t: Tree, d: int, h: nat, spine: bool)
    requires h > 0 && Ordered(t, h, spine)
    ensures var i := SearchChild(t, d);
            AllBelow(Flat(t.kids[..i]), d) && AllFrom(Flat(t.kids[i + 1..]), d)
  {
    SeparatorsSorted(t, h, spine);
    var i := SearchChild(t, d);
    AroundChild(t, i, Record(0, d), h, spine);
    if i > 0 {
      AroundChild(t, i, Record(0, d - 1), h, spine);
    }
  }

  /** Before row `n` all records are below `d`, after it none is. */
  ghost predicate SplitsAt(rows: seq<seq<Record>>, n: nat, d: int) {
    n < |rows| && AllBelow(Join(rows[..n]), d) && AllFrom(Join(rows[n + 1..]), d)
  }

  /**
    Every record before the reached leaf is below `d` and every record after it is not, although
    duplicates may span leaves and insertions searched with a different comparison.
   */
  lemma {:induction false} ReachedSplits(t: Tree, d: int, h: nat, spine: bool)
    requires Ordered(t, h, spine)
    ensures SplitsAt(Rows(t), Reached(t, d, h), d)
    decreases h
  {
    if h == 0 {
      assert Rows(t)[..0] == [] && Rows(t)[1..] == [];
    } else {
      var i := SearchChild(t, d);
      assert Kid(t, i, h, spine);
      ReachedSplits(t.kids[i], d, h - 1, spine && i == 0);
      ChildSplits(t, d, h, spine);
      SplitsAround(t.kids, i, Reached(t.kids[i], d, h - 1), d);
    }
  }

  lemma SplitsAround(ts: seq<Tree>, i: nat, j: nat, d: int)
    requires i < |ts| && SplitsAt(Rows(ts[i]), j, d)
    requires AllBelow(Flat(ts[..i]), d) && AllFrom(Flat(ts[i + 1..]), d)
    ensures SplitsAt(AllRows(ts), |AllRows(ts[..i])| + j, d)
  {
    JoinAround(ts, i, j);
    BelowConcat(Flat(ts[..i]), Join(Rows(ts[i])[..j]), d);
    FromConcat(Join(Rows(ts[i])[j + 1..]), Flat(ts[i + 1..]), d);
  }

  lemma BelowConcat(a: seq<Record>, b: seq<Record>, d: int)
    requires AllBelow(a, d) && AllBelow(b, d)
    ensures AllBelow(a + b, d)
  {
  }

  lemma FromConcat(a: seq<Record>, b: seq<Record>, d: int)
    requires AllFrom(a, d) && AllFrom(b, d)
    ensures AllFrom(a + b, d)
  {
  }

  /** The rows before and after row `j` of child `i`, joined. */
  lemma JoinAround(ts: seq<Tree>, i: nat, j: nat)
    requires i < |ts| && j < |Rows(ts[i])|
    ensures var n, rows := |AllRows(ts[..i])| + j, AllRows(ts);
            && n < |rows|
            && Join(rows[..n]) == Flat(ts[..i]) + Join(Rows(ts[i])[..j])
            && Join(rows[n + 1..]) == Join(Rows(ts[i])[j + 1..]) + Flat(ts[i + 1..])
  {
    var a, y, b := AllRows(ts[..i]), Rows(ts[i]), AllRows(ts[i + 1..]);
    AllRowsAt(ts, i);
    var n, rows := |a| + j, AllRows(ts);
    assert rows == a + y + b;
    assert rows[..n] == a + y[..j] && rows[n + 1..] == y[j + 1..] + b;
    JoinConcat(a, y[..j]);
    JoinConcat(y[j + 1..], b);
    AllRowsFlat(ts[..i]);
    AllRowsFlat(ts[i + 1..]);
  }

  // ---------- The search on the heap ----------

  lemma {:induction false} LevelAllConcat(a: seq<Layout>, b: seq<Layout>, k: nat)
    ensures LevelAll(a + b, k) == LevelAll(a, k) + LevelAll(b, k)
  {
    if a == [] {
      assert a + b == b;
    } else {
      assert (a + b)[1..] == a[1..] + b;
      LevelAllConcat(a[1..], b, k);
    }
  }

  lemma LevelAllAt(ls: seq<Layout>, i: nat, k: nat)
    requires i < |ls|
    ensures LevelAll(ls, k) == LevelAll(ls[..i], k) + Level(ls[i], k) + LevelAll(ls[i + 1..], k)
  {
    assert ls == ls[..i] + ls[i..];
    LevelAllConcat(ls[..i], ls[i..], k);
  }

  /** The children before child `i` have as many leaves as rows. */
  lemma LeavesBefore(ls: seq<Layout>, ts: seq<Tree>, h: nat, i: nat)
    requires AllRep(ls, ts) && i < |ls|
    requires forall k :: 0 <= k < |ts| ==> Filled(ts[k], h)
    ensures |LevelAll(ls[..i], h)| == |AllRows(ts[..i])|
  {
    assert ls == ls[..i] + ls[i..] && ts == ts[..i] + ts[i..];
    RepConcat(ls[..i], ls[i..], ts[..i], ts[i..]);
    AllBottomsHold(ls[..i], ts[..i], h);
  }

  /** The leaves of child `i` stand in the bottom level after those of the children before it. */
  lemma LeafOfKid(l: Layout, t: Tree, h: nat, i: nat, j: nat)
    requires h > 0 && Rep(l, t) && Body(t, h) && i < |t.kids|
    requires i < |l.kids| && j < |Level(l.kids[i], h - 1)|
    ensures |AllRows(t.kids[..i])| + j < |Level(l, h)|
    ensures Level(l, h)[|AllRows(t.kids[..i])| + j] == Level(l.kids[i], h - 1)[j]
  {
    LevelAllAt(l.kids, i, h - 1);
    forall k | 0 <= k < |t.kids| ensures Filled(t.kids[k], h - 1) {}
    LeavesBefore(l.kids, t.kids, h - 1, i);
  }

  /** bt_search_left. */
  method SearchLeft(node: BtNode, d: int) returns (i: nat)
    requires node.length <= node.records.Length
    ensures i == LowerIndex(node.records[..node.length], d)
  {
    i := 0;
    while i < node.length && node.records[i].val < d
      invariant i <= node.length
      invariant LowerIndex(node.records[..node.length], d) == LowerFrom(node.records[..node.length], d, i)
    {
      i := i + 1;
    }
  }

  /** bt_search_node. */
  method SearchNode(root: BtNode, d: int, ghost l: Layout, ghost t: Tree, ghost h: nat, ghost spine: bool)
    returns (leaf: BtNode)
    requires l.node == root && Rep(l, t) && Ordered(t, h, spine)
    ensures Reached(t, d, h) < |Level(l, h)| && leaf == Level(l, h)[Reached(t, d, h)]
    decreases h
  {
    if root.leaf {
      return root;
    }
    ObjsAllocated(l);
    AllObjsAllocated(l.kids);
    assert AllRep(l.kids, t.kids);
    var i := SearchLeft(root, d);
    if i > 0 {
      i := i - 1;
    }
    assert Kid(t, i, h, spine);
    assert AllRep(l.kids, t.kids);
    assert RepAt(l.kids, t.kids, i);
    ChildHere(root, i, l, t);
    leaf := SearchNode(root.children[i], d, l.kids[i], t.kids[i], h - 1, spine && i == 0);
    LeafOfKid(l, t, h, i, Reached(t.kids[i], d, h - 1));
  }

  // ---------- The range walk ----------

  predicate InRange(r: Record, low: int, high: int) { low <= r.val < high }

  /** The positions of the records with low <= value < high, in order. */
  function Hits(s: seq<Record>, low: int, high: int): seq<int> {
    if s == [] then []
    else
      var n := |s| - 1;
      Hits(s[..n], low, high) + if InRange(s[n], low, high) then [s[n].pos] else []
  }

  lemma {:induction false} HitsConcat(a: seq<Record>, b: seq<Record>, low: int, high: int)
    ensures Hits(a + b, low, high) == Hits(a, low, high) + Hits(b, low, high)
  {
    if b == [] {
      assert a + b == a;
    } else {
      var n := |b| - 1;
      assert (a + b)[..|a + b| - 1] == a + b[..n];
      HitsConcat(a, b[..n], low, high);
    }
  }

  lemma {:induction false} HitsNone(s: seq<Record>, low: int, high: int)
    requires forall r :: r in s ==> !InRange(r, low, high)
    ensures Hits(s, low, high) == []
  {
    if s != [] {
      HitsNone(s[..|s| - 1], low, high);
    }
  }

  /** What a walk has returned once nothing in range is left behind or ahead of the rows it read. */
  lemma HitsBetween(rows: seq<seq<Record>>, from: nat, to: nat, low: int, high: int)
    requires from <= to <= |rows|
    requires AllBelow(Join(rows[..from]), low)
    requires AllFrom(Join(rows[to..]), high)
    ensures Hits(Join(rows), low, high) == Hits(Join(rows[from..to]), low, high)
  {
    assert rows == rows[..from] + rows[from..to] + rows[to..];
    JoinConcat(rows[..from] + rows[from..to], rows[to..]);
    JoinConcat(rows[..from], rows[from..to]);
    HitsConcat(Join(rows[..from]) + Join(rows[from..to]), Join(rows[to..]), low, high);
    HitsConcat(Join(rows[..from]), Join(rows[from..to]), low, high);
    HitsNone(Join(rows[..from]), low, high);
    HitsNone(Join(rows[to..]), low, high);
  }

  /** The inner loop of select_one_btree over one leaf; `done` once it has passed `high`, after `n` records. */
  method ScanLeaf(cur: BtNode, low: int, high: int, ret: Vector, ghost row: seq<Record>)
    returns (done: bool, ghost n: nat)
    requires cur.length == |row| <= cur.records.Length && cur.records[..cur.length] == row
    requires ret.Valid()
    modifies ret, ret.buf
    ensures ret.Valid() && (ret.buf == old(ret.buf) || fresh(ret.buf))
    ensures n <= |row| && ret.Contents() == old(ret.Contents()) + Hits(row[..n], low, high)
    ensures if done then n < |row| && row[n].val >= high else n == |row|
  {
    var i := 0;
    while i < cur.length
      invariant i <= cur.length == |row| && cur.records[..cur.length] == row
      invariant ret.Valid() && (ret.buf == old(ret.buf) || fresh(ret.buf))
      invariant ret.Contents() == old(ret.Contents()) + Hits(row[..i], low, high)
    {
      assert cur.records[i] == row[i] && row[..i + 1][..i] == row[..i];
      if cur.records[i].val >= high {
        return true, i;
      }
      if cur.records[i].val >= low {
        var pos := ret.Insert(cur.records[i].pos);
      }
      i := i + 1;
    }
    assert row[..i] == row;
    return false, i;
  }

  lemma JoinNext(rows: seq<seq<Record>>, from: nat, k: nat)
    requires from <= k < |rows|
    ensures Join(rows[from..k + 1]) == Join(rows[from..k]) + rows[k]
  {
    assert rows[from..k + 1] == rows[from..k] + [rows[k]];
    JoinConcat(rows[from..k], [rows[k]]);
    assert [rows[k]][1..] == [] && Join([rows[k]]) == rows[k];
  }

  lemma HitsNext(rows: seq<seq<Record>>, from: nat, k: nat, low: int, high: int)
    requires from <= k < |rows|
    ensures Hits(Join(rows[from..k + 1]), low, high) == Hits(Join(rows[from..k]), low, high) + Hits(rows[k], low, high)
  {
    JoinNext(rows, from, k);
    HitsConcat(Join(rows[from..k]), rows[k], low, high);
  }

  lemma SuffixFrom(s: seq<Record>, p: nat, d: int)
    requires Sorted(s) && p < |s| && s[p].val >= d
    ensures AllFrom(s[p..], d)
  {
    forall r | r in s[p..] ensures r.val >= d {
      var j :| 0 <= j < |s[p..]| && s[p..][j] == r;
      assert r == s[p + j];
    }
  }

  lemma StoppedParts(rows: seq<seq<Record>>, from: nat, k: nat, n: nat)
    requires from <= k < |rows| && n <= |rows[k]|
    ensures Join(rows)
            == Join(rows[..from]) + (Join(rows[from..k]) + rows[k][..n]) + (rows[k][n..] + Join(rows[k + 1..]))
  {
    assert rows == rows[..from] + rows[from..k] + [rows[k]] + rows[k + 1..];
    JoinConcat(rows[..from] + rows[from..k] + [rows[k]], rows[k + 1..]);
    JoinConcat(rows[..from] + rows[from..k], [rows[k]]);
    JoinConcat(rows[..from], rows[from..k]);
    assert [rows[k]][1..] == [] && Join([rows[k]]) == rows[k];
    assert rows[k] == rows[k][..n] + rows[k][n..];
  }

  /** Stopping inside row `k`, at a record that is not below `high`, misses nothing. */
  lemma HitsStopped(rows: seq<seq<Record>>, from: nat, k: nat, n: nat, low: int, high: int)
    requires from <= k < |rows| && n < |rows[k]| && rows[k][n].val >= high
    requires Sorted(Join(rows)) && AllBelow(Join(rows[..from]), low)
    ensures Hits(Join(rows), low, high) == Hits(Join(rows[from..k]), low, high) + Hits(rows[k][..n], low, high)
  {
    var a, m, b := Join(rows[..from]), Join(rows[from..k]) + rows[k][..n], rows[k][n..] + Join(rows[k + 1..]);
    var s := Join(rows);
    StoppedParts(rows, from, k, n);
    assert s[|a + m|] == b[0] == rows[k][n] && s[|a + m|..] == b;
    SuffixFrom(s, |a + m|, high);
    HitsConcat(a + m, b, low, high);
    HitsConcat(a, m, low, high);
    HitsConcat(Join(rows[from..k]), rows[k][..n], low, high);
    HitsNone(a, low, high);
    HitsNone(b, low, high);
  }

  /** What the walk along the leaves `nodes` relies on. */
  ghost predicate Walkable(nodes: seq<BtNode>, rows: seq<seq<Record>>)
    reads nodes, set n | n in nodes :: n.records
  {
    LeavesHold(nodes, rows) && Linked(nodes, null) && Distinct(nodes)
  }

  ghost function LeafOrNull(nodes: seq<BtNode>, k: nat): BtNode? {
    if k < |nodes| then nodes[k] else null
  }

  /** The walk along the leaves stands before leaf `k`; `ret` holds the hits of the leaves passed. */
  ghost predicate Walking(ret: Vector, nodes: seq<BtNode>, rows: seq<seq<Record>>, from: nat, k: nat, low: int,
                          high: int)
    reads ret, ret.buf, nodes, set n | n in nodes :: n.records
  {
    && Walkable(nodes, rows) && ret.Valid() && from <= k <= |nodes| == |rows|
    && ret.Contents() == Hits(Join(rows[from..k]), low, high)
  }

  /** One round of the outer loop of select_one_btree: leaf `k`, and whether the walk ends there. */
  method VisitLeaf(cur: BtNode, hl: BtNode, low: int, high: int, ret: Vector,
                   ghost nodes: seq<BtNode>, ghost rows: seq<seq<Record>>, ghost from: nat, ghost k: nat, ghost to: nat)
    returns (done: bool, next: BtNode?)
    requires Walking(ret, nodes, rows, from, k, low, high) && Sorted(Join(rows))
    requires k < |nodes| && to < |nodes| && cur == nodes[k] && hl == nodes[to]
    requires AllBelow(Join(rows[..from]), low) && AllFrom(Join(rows[to + 1..]), high)
    modifies ret, ret.buf
    ensures ret.Valid() && (ret.buf == old(ret.buf) || fresh(ret.buf))
    ensures done ==> ret.Contents() == Hits(Join(rows), low, high)
    ensures !done ==> Walking(ret, nodes, rows, from, k + 1, low, high) && next == LeafOrNull(nodes, k + 1)
  {
    assert LeafAt(nodes, rows, k) && LinkAt(nodes, null, k);
    next := cur.next;
    ghost var n;
    done, n := ScanLeaf(cur, low, high, ret, rows[k]);
    if done {
      HitsStopped(rows, from, k, n, low, high);
      return;
    }
    assert rows[k][..n] == rows[k];
    HitsNext(rows, from, k, low, high);
    if cur == hl {
      assert k == to;
      HitsBetween(rows, from, k + 1, low, high);
      return true, null;
    }
  }

  /** The outer loop of select_one_btree: along the chain from leaf `from` until `hl`, `high` or the end. */
  method WalkLeaves(ll: BtNode, hl: BtNode, low: int, high: int,
                    ghost nodes: seq<BtNode>, ghost rows: seq<seq<Record>>, ghost from: nat, ghost to: nat)
    returns (ret: Vector)
    requires Walkable(nodes, rows) && Sorted(Join(rows))
    requires from < |nodes| && to < |nodes| && ll == nodes[from] && hl == nodes[to]
    requires AllBelow(Join(rows[..from]), low) && AllFrom(Join(rows[to + 1..]), high)
    ensures fresh(ret) && fresh(ret.buf) && ret.Valid()
    ensures ret.Contents() == Hits(Join(rows), low, high)
  {
    ret := new Vector(0);
    var cur: BtNode? := ll;
    ghost var k := from;
    assert rows[from..from] == [];
    while cur != null
      invariant fresh(ret) && fresh(ret.buf) && k <= |nodes| && cur == LeafOrNull(nodes, k)
      invariant Walking(ret, nodes, rows, from, k, low, high)
      decreases |nodes| - k
    {
      var done, next := VisitLeaf(cur, hl, low, high, ret, nodes, rows, from, k, to);
      if done {
        return;
      }
      cur := next;
      k := k + 1;
    }
    assert rows[k..] == [];
    HitsBetween(rows, from, k, low, high);
  }

  /** What the leaf walk relies on, for every standing ordered tree. */
  lemma BottomRow(l: Layout, t: Tree, h: nat)
    requires Stands(l, t, Nulls(h + 1)) && Ordered(t, h, true)
    ensures LeavesHold(Level(l, h), Rows(t)) && Linked(Level(l, h), null) && Distinct(Level(l, h))
    ensures Join(Rows(t)) == InOrder(t) && Sorted(Join(Rows(t)))
  {
    NullsAt(h + 1, h);
    LevelLinked(l, t, h, Nulls(h + 1), h);
    BottomHolds(l, t, h);
    LevelDistinct(l, h);
    RowsInOrder(t);
  }

  /** In every index, on every level: `next` visits each node of the level once, left to right, and ends in NULL. */
  lemma LevelsChained(tree: BTree, k: nat)
    requires tree.Valid() && k <= tree.index.level
    ensures Level(tree.layout, k) != [] && k < |Spine(tree.layout)| && Level(tree.layout, k)[0] == Spine(tree.layout)[k]
    ensures Linked(Level(tree.layout, k), null) && Distinct(Level(tree.layout, k))
  {
    var h := tree.index.level;
    NullsAt(h + 1, k);
    LevelLinked(tree.layout, tree.index.root, h, Nulls(h + 1), k);
    LevelDistinct(tree.layout, k);
  }

  lemma {:induction false} NullsAt(n: nat, k: nat)
    requires k < n
    ensures Nulls(n)[k] == null
  {
    if k > 0 { NullsAt(n - 1, k - 1); }
  }

  /** select_one_btree: the positions of all records with low <= value < high, in the order of the tree. */
  method SelectOneBtree(tree: BTree, low: int, high: int) returns (ret: Vector)
    requires tree.Valid()
    ensures fresh(ret) && fresh(ret.buf) && ret.Valid()
    ensures ret.Contents() == Hits(InOrder(tree.index.root), low, high)
  {
    ghost var l, t, h := tree.layout, tree.index.root, tree.index.level;
    ObjsAllocated(l);
    var ll := SearchNode(tree.root, low, l, t, h, true);
    assert Rep(l, t);
    var hl := SearchNode(tree.root, high, l, t, h, true);
    assert Stands(l, t, Nulls(h + 1));
    BottomRow(l, t, h);
    ReachedSplits(t, low, h, true);
    ReachedSplits(t, high, h, true);
    ret := WalkLeaves(ll, hl, low, high, Level(l, h), Rows(t), Reached(t, low, h), Reached(t, high, h));
  }
}
