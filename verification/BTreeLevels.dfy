/** The levels of a tree on the heap: which nodes they hold, how `next` links them, what the leaves hold. */
module BTreeLevels {
  import opened Records
  import opened BTreeModel
  import opened BTreeHeap

  /** The nodes `k` levels below the root of `l`, left to right. */
  ghost function Level(l: Layout, k: nat): seq<BtNode>
    decreases l, 1
  {
    if k == 0 then [l.node] else LevelAll(l.kids, k - 1)
  }

  ghost function LevelAll(ls: seq<Layout>, k: nat): seq<BtNode>
    decreases ls, 0
  {
    if ls == [] then [] else Level(ls[0], k) + LevelAll(ls[1..], k)
  }

  ghost predicate LinkAt(nodes: seq<BtNode>, out: BtNode?, i: nat)
    requires i < |nodes|
    reads nodes[i]
  {
    nodes[i].next == if i + 1 < |nodes| then nodes[i + 1] else out
  }

  /** Following `next` from the first node visits exactly `nodes`, in order, and then arrives at `out`. */
  ghost predicate Linked(nodes: seq<BtNode>, out: BtNode?)
    reads nodes
  {
    forall i :: 0 <= i < |nodes| ==> LinkAt(nodes, out, i)
  }

  lemma LinkedConcat(a: seq<BtNode>, b: seq<BtNode>, out: BtNode?)
    requires b != [] && Linked(a, b[0]) && Linked(b, out)
    ensures Linked(a + b, out)
  {
    forall i | 0 <= i < |a + b| ensures LinkAt(a + b, out, i) {
      if i < |a| { assert LinkAt(a, b[0], i); } else { assert LinkAt(b, out, i - |a|); }
    }
  }

  /** The chain of every level of a standing tree links exactly the nodes of that level. */
  lemma {:induction false} LevelLinked(l: Layout, t: Tree, h: nat, outs: seq<BtNode?>, k: nat)
    requires Rep(l, t) && Body(t, h) && Chained(l, outs) && k <= h < |outs|
    ensures Level(l, k) != [] && Linked(Level(l, k), outs[k])
    ensures k < |Spine(l)| && Level(l, k)[0] == Spine(l)[k]
    decreases h, 0
  {
    if k == 0 {
      assert LinkAt([l.node], outs[0], 0);
    } else {
      LevelAllLinked(l.kids, t.kids, h - 1, outs[1..], k - 1);
    }
  }

  lemma {:induction false} LevelAllLinked(ls: seq<Layout>, ts: seq<Tree>, h: nat, outs: seq<BtNode?>, k: nat)
    requires ls != [] && AllRep(ls, ts) && AllChained(ls, outs) && k <= h < |outs|
    requires forall i :: 0 <= i < |ts| ==> Filled(ts[i], h)
    ensures LevelAll(ls, k) != [] && Linked(LevelAll(ls, k), outs[k])
    ensures k < |Spine(ls[0])| && LevelAll(ls, k)[0] == Spine(ls[0])[k]
    decreases h, 1, |ls|
  {
    assert RepAt(ls, ts, 0) && ChainedAt(ls, outs, 0) && Filled(ts[0], h);
    var rest, trest := ls[1..], ts[1..];
    if rest == [] {
      LevelLinked(ls[0], ts[0], h, outs, k);
      assert LevelAll(ls, k) == Level(ls[0], k);
    } else {
      assert ls == [ls[0]] + rest && ts == [ts[0]] + trest;
      RepConcat([ls[0]], rest, [ts[0]], trest);
      ChainedConcat([ls[0]], rest, outs);
      LevelAllLinked(rest, trest, h, outs, k);
      assert RepAt(rest, trest, 0) && Filled(trest[0], h);
      SpineLength(rest[0], trest[0], h);
      LevelLinked(ls[0], ts[0], h, Spine(rest[0]), k);
      LinkedConcat(Level(ls[0], k), LevelAll(rest, k), outs[k]);
    }
  }

  lemma {:induction false} SpineLength(l: Layout, t: Tree, h: nat)
    requires Rep(l, t) && Body(t, h)
    ensures |Spine(l)| == h + 1
    decreases h
  {
    if h > 0 {
      assert RepAt(l.kids, t.kids, 0) && Filled(t.kids[0], h - 1);
      SpineLength(l.kids[0], t.kids[0], h - 1);
    }
  }

  // ---------- The leaves ----------

  /** What each leaf of a tree holds, left to right. */
  function Rows(t: Tree): (rows: seq<seq<Record>>)
    decreases t, 1
  {
    if t.Leaf? then [t.recs] else AllRows(t.kids)
  }

  function AllRows(ts: seq<Tree>): seq<seq<Record>>
    decreases ts, 0
  {
    if ts == [] then [] else Rows(ts[0]) + AllRows(ts[1..])
  }

  function Join(rows: seq<seq<Record>>): seq<Record> {
    if rows == [] then [] else rows[0] + Join(rows[1..])
  }

  lemma {:induction false} JoinConcat(a: seq<seq<Record>>, b: seq<seq<Record>>)
    ensures Join(a + b) == Join(a) + Join(b)
  {
    if a == [] {
      assert a + b == b;
    } else {
      assert (a + b)[1..] == a[1..] + b;
      JoinConcat(a[1..], b);
    }
  }

  /** The records of a tree are those of its leaves. */
  lemma {:induction false} RowsInOrder(t: Tree)
    ensures Join(Rows(t)) == InOrder(t)
    decreases t, 0
  {
    if t.Leaf? {
      assert Join([t.recs]) == t.recs;
    } else {
      AllRowsFlat(t.kids);
    }
  }

  lemma {:induction false} AllRowsFlat(ts: seq<Tree>)
    ensures Join(AllRows(ts)) == Flat(ts)
    decreases ts, 1
  {
    if ts != [] {
      RowsInOrder(ts[0]);
      AllRowsFlat(ts[1..]);
      JoinConcat(Rows(ts[0]), AllRows(ts[1..]));
    }
  }

  ghost predicate LeafAt(nodes: seq<BtNode>, rows: seq<seq<Record>>, i: nat)
    requires i < |nodes| == |rows|
    reads nodes[i], nodes[i].records
  {
    && nodes[i].leaf && nodes[i].length == |rows[i]| <= nodes[i].records.Length
    && nodes[i].records[..nodes[i].length] == rows[i]
  }

  /** Leaf `i` of `nodes` holds `rows[i]`. */
  ghost predicate LeavesHold(nodes: seq<BtNode>, rows: seq<seq<Record>>)
    reads nodes, set n | n in nodes :: n.records
  {
    |nodes| == |rows| && forall i :: 0 <= i < |nodes| ==> LeafAt(nodes, rows, i)
  }

  lemma LeavesConcat(a: seq<BtNode>, b: seq<BtNode>, ra: seq<seq<Record>>, rb: seq<seq<Record>>)
    requires LeavesHold(a, ra) && LeavesHold(b, rb)
    ensures LeavesHold(a + b, ra + rb)
  {
    forall i | 0 <= i < |a + b| ensures LeafAt(a + b, ra + rb, i) {
      if i < |a| { assert LeafAt(a, ra, i); } else { assert LeafAt(b, rb, i - |a|); }
    }
  }

  /** The bottom level of a standing tree holds the rows of its value. */
  lemma {:induction false} BottomHolds(l: Layout, t: Tree, h: nat)
    requires Rep(l, t) && Body(t, h)
    ensures LeavesHold(Level(l, h), Rows(t))
    decreases h, 0
  {
    if h == 0 {
      assert LeafAt([l.node], [t.recs], 0);
    } else {
      AllBottomsHold(l.kids, t.kids, h - 1);
    }
  }

  lemma {:induction false} AllBottomsHold(ls: seq<Layout>, ts: seq<Tree>, h: nat)
    requires AllRep(ls, ts)
    requires forall i :: 0 <= i < |ts| ==> Filled(ts[i], h)
    ensures LeavesHold(LevelAll(ls, h), AllRows(ts))
    decreases h, 1, |ls|
  {
    if ls != [] {
      assert RepAt(ls, ts, 0) && Filled(ts[0], h);
      assert ls == [ls[0]] + ls[1..] && ts == [ts[0]] + ts[1..];
      RepConcat([ls[0]], ls[1..], [ts[0]], ts[1..]);
      BottomHolds(ls[0], ts[0], h);
      AllBottomsHold(ls[1..], ts[1..], h);
      LeavesConcat(Level(ls[0], h), LevelAll(ls[1..], h), Rows(ts[0]), AllRows(ts[1..]));
    }
  }

  // ---------- No node stands twice on a level ----------

  ghost predicate Distinct(nodes: seq<BtNode>) {
    forall i, j :: 0 <= i < j < |nodes| ==> nodes[i] != nodes[j]
  }

  lemma {:induction false} LevelDistinct(l: Layout, k: nat)
    requires Separate(l)
    ensures Distinct(Level(l, k)) && forall n :: n in Level(l, k) ==> n in Objs(l) && n.records in Objs(l)
    decreases l, 0
  {
    if k > 0 {
      LevelAllDistinct(l.kids, k - 1);
    }
  }

  lemma {:induction false} LevelAllDistinct(ls: seq<Layout>, k: nat)
    requires AllSeparate(ls)
    ensures Distinct(LevelAll(ls, k))
    ensures forall n :: n in LevelAll(ls, k) ==> n in AllObjs(ls) && n.records in AllObjs(ls)
    decreases ls, 1
  {
    if ls != [] {
      LevelDistinct(ls[0], k);
      LevelAllDistinct(ls[1..], k);
      assert ls == [ls[0]] + ls[1..];
      ObjsConcat([ls[0]], ls[1..]);
      Single(ls[0]);
      var a, b := Level(ls[0], k), LevelAll(ls[1..], k);
      forall i, j | 0 <= i < j < |a + b| ensures (a + b)[i] != (a + b)[j] {
        if i < |a| <= j {
          assert a[i] in Objs(ls[0]) && b[j - |a|] in AllObjs(ls[1..]);
        }
      }
    }
  }
}
