/**
  The file format of persist_btree_index as a value: the nodes of a tree in preorder, each with
  its leaf flag and records. Pointers do not survive; the shape is recovered from the counts.
 */
module DumpModel {
  import opened Records
  import opened BTreeModel
  import opened BTreeNodes

  /** What of a written node is still meaningful when it is read back. */
  datatype Entry = Entry(leaf: bool, recs: seq<Record>)

  /** Every node has as many separators as children. */
  ghost predicate Regular(t: Tree) {
    t.Node? ==> |t.kids| == |t.recs| && forall k :: 0 <= k < |t.kids| ==> Regular(t.kids[k])
  }

  function Dump(t: Tree): (s: seq<Entry>)
    ensures s != []
    decreases t, 1
  {
    [Entry(t.Leaf?, t.recs)] + if t.Leaf? then [] else DumpAll(t.kids)
  }

  function DumpAll(ts: seq<Tree>): seq<Entry>
    decreases ts, 0
  {
    if ts == [] then [] else Dump(ts[0]) + DumpAll(ts[1..])
  }

  datatype Parsed = EndOfFile | Parsed(tree: Tree, rest: seq<Entry>)
  datatype ParsedAll = EndOfFileAll | ParsedAll(trees: seq<Tree>, rest: seq<Entry>)

  /** load_btree_node: a node, then as many subtrees as it has entries. */
  function Parse(s: seq<Entry>): (r: Parsed)
    ensures r.Parsed? ==> |r.rest| < |s|
    decreases |s|, 0
  {
    if s == [] then EndOfFile
    else if s[0].leaf then Parsed(Leaf(s[0].recs), s[1..])
    else
      var k := ParseAll(s[1..], |s[0].recs|);
      if k.EndOfFileAll? then EndOfFile else Parsed(Node(s[0].recs, k.trees), k.rest)
  }

  function ParseAll(s: seq<Entry>, n: nat): (r: ParsedAll)
    ensures r.ParsedAll? ==> |r.rest| <= |s| && |r.trees| == n
    decreases |s|, 1, n
  {
    if n == 0 then ParsedAll([], s)
    else
      var p := Parse(s);
      if p.EndOfFile? then EndOfFileAll
      else
        var k := ParseAll(p.rest, n - 1);
        if k.EndOfFileAll? then EndOfFileAll else ParsedAll([p.tree] + k.trees, k.rest)
  }

  /** Reading back what was written gives the same tree and stops where it ended. */
  lemma {:induction false} ParseDump(t: Tree, rest: seq<Entry>)
    requires Regular(t)
    ensures Parse(Dump(t) + rest) == Parsed(t, rest)
    decreases t, 0
  {
    var s := Dump(t) + rest;
    if t.Leaf? {
      assert s[1..] == rest;
    } else {
      assert s[1..] == DumpAll(t.kids) + rest;
      ParseDumpAll(t.kids, rest);
    }
  }

  lemma {:induction false} ParseDumpAll(ts: seq<Tree>, rest: seq<Entry>)
    requires forall k :: 0 <= k < |ts| ==> Regular(ts[k])
    ensures ParseAll(DumpAll(ts) + rest, |ts|) == ParsedAll(ts, rest)
    decreases ts, 1
  {
    if ts == [] {
      assert DumpAll(ts) + rest == rest;
    } else {
      var s, tail := DumpAll(ts) + rest, DumpAll(ts[1..]) + rest;
      assert s == Dump(ts[0]) + tail;
      ParseDump(ts[0], tail);
      ParseDumpAll(ts[1..], rest);
      ParseOneMore(s, ts[0], tail, ts[1..], rest);
      assert [ts[0]] + ts[1..] == ts;
    }
  }

  lemma ParseOneMore(s: seq<Entry>, t: Tree, tail: seq<Entry>, ts: seq<Tree>, rest: seq<Entry>)
    requires Parse(s) == Parsed(t, tail) && ParseAll(tail, |ts|) == ParsedAll(ts, rest)
    ensures ParseAll(s, |ts| + 1) == ParsedAll([t] + ts, rest)
  {
  }

  /** Conversely, whatever is read was written by that tree: the format is unambiguous. */
  lemma {:induction false} DumpParse(s: seq<Entry>)
    requires Parse(s).Parsed?
    ensures Regular(Parse(s).tree) && s == Dump(Parse(s).tree) + Parse(s).rest
    decreases |s|, 0
  {
    var p := Parse(s);
    assert s == [s[0]] + s[1..];
    if s[0].leaf {
      assert p.tree == Leaf(s[0].recs) && p.rest == s[1..];
    } else {
      DumpParseAll(s[1..], |s[0].recs|);
      var k := ParseAll(s[1..], |s[0].recs|);
      assert p.tree == Node(s[0].recs, k.trees) && p.rest == k.rest;
      assert Dump(p.tree) + p.rest == [s[0]] + (DumpAll(k.trees) + k.rest);
    }
  }

  lemma {:induction false} DumpParseAll(s: seq<Entry>, n: nat)
    requires ParseAll(s, n).ParsedAll?
    ensures var r := ParseAll(s, n);
            (forall k :: 0 <= k < |r.trees| ==> Regular(r.trees[k])) && s == DumpAll(r.trees) + r.rest
    decreases |s|, 1, n
  {
    if n > 0 {
      var p := Parse(s);
      DumpParse(s);
      DumpParseAll(p.rest, n - 1);
      var k := ParseAll(p.rest, n - 1);
      ParseOneMore(s, p.tree, p.rest, k.trees, k.rest);
      DumpOneMore(p.tree, k.trees, k.rest);
    }
  }

  lemma DumpOneMore(t: Tree, ts: seq<Tree>, rest: seq<Entry>)
    ensures DumpAll([t] + ts) + rest == Dump(t) + (DumpAll(ts) + rest)
  {
    assert ([t] + ts)[1..] == ts;
  }

  lemma {:induction false} BodyRegular(t: Tree, h: nat)
    requires Body(t, h)
    ensures Regular(t)
    decreases h
  {
    if h > 0 {
      forall k | 0 <= k < |t.kids| ensures Regular(t.kids[k]) {
        assert Filled(t.kids[k], h - 1);
        BodyRegular(t.kids[k], h - 1);
      }
    }
  }

  // ---------- Where every node is in the file ----------

  /** The number of nodes. */
  function Count(t: Tree): (n: nat)
    ensures n >= 1
    decreases t, 1
  {
    1 + if t.Leaf? then 0 else CountAll(t.kids)
  }

  function CountAll(ts: seq<Tree>): nat
    decreases ts, 0
  {
    if ts == [] then 0 else Count(ts[0]) + CountAll(ts[1..])
  }

  /** One image for every node. */
  lemma {:induction false} DumpLength(t: Tree)
    ensures |Dump(t)| == Count(t)
    decreases t, 1
  {
    if t.Node? { DumpAllLength(t.kids); }
  }

  lemma {:induction false} DumpAllLength(ts: seq<Tree>)
    ensures |DumpAll(ts)| == CountAll(ts)
    decreases ts, 0
  {
    if ts != [] {
      DumpLength(ts[0]);
      DumpAllLength(ts[1..]);
    }
  }

  lemma {:induction false} DumpAllConcat(a: seq<Tree>, b: seq<Tree>)
    ensures DumpAll(a + b) == DumpAll(a) + DumpAll(b)
  {
    if a == [] {
      assert a + b == b;
    } else {
      assert (a + b)[1..] == a[1..] + b;
      DumpAllConcat(a[1..], b);
    }
  }

  lemma DumpAllAt(ts: seq<Tree>, k: nat)
    requires k < |ts|
    ensures DumpAll(ts) == DumpAll(ts[..k]) + Dump(ts[k]) + DumpAll(ts[k + 1..])
  {
    assert ts == ts[..k] + ts[k..];
    DumpAllConcat(ts[..k], ts[k..]);
  }

  /** The image number of the node at a path: parents first, then child after child. */
  function ImageOf(t: Tree, p: Path): nat
    requires IsPath(t, p)
    decreases |p|
  {
    if p == [] then 0 else 1 + CountAll(t.kids[..p[0]]) + ImageOf(t.kids[p[0]], p[1..])
  }

  /** The file holds the node at every path, under its number. */
  lemma {:induction false} DumpAt(t: Tree, p: Path)
    requires IsPath(t, p)
    ensures ImageOf(t, p) < |Dump(t)|
    ensures Dump(t)[ImageOf(t, p)] == Entry(At(t, p).Leaf?, At(t, p).recs)
    decreases |p|
  {
    if p != [] {
      var k := p[0];
      DumpAt(t.kids[k], p[1..]);
      DumpAllAt(t.kids, k);
      DumpAllLength(t.kids[..k]);
      var a, y, b := DumpAll(t.kids[..k]), Dump(t.kids[k]), DumpAll(t.kids[k + 1..]);
      var i := ImageOf(t.kids[k], p[1..]);
      assert Dump(t) == [Entry(false, t.recs)] + (a + y + b);
      assert (a + y + b)[|a| + i] == y[i];
    }
  }

  /** The records of the leaf images, one image after the other. */
  function LeafRecords(es: seq<Entry>): seq<Record> {
    if es == [] then [] else (if es[0].leaf then es[0].recs else []) + LeafRecords(es[1..])
  }

  lemma {:induction false} LeafRecordsConcat(a: seq<Entry>, b: seq<Entry>)
    ensures LeafRecords(a + b) == LeafRecords(a) + LeafRecords(b)
  {
    if a == [] {
      assert a + b == b;
    } else {
      assert (a + b)[1..] == a[1..] + b;
      LeafRecordsConcat(a[1..], b);
    }
  }

  /** The leaf images in file order hold the records in their order. */
  lemma {:induction false} DumpInOrder(t: Tree)
    ensures LeafRecords(Dump(t)) == InOrder(t)
    decreases t, 1
  {
    if t.Leaf? {
      assert Dump(t)[1..] == [];
    } else {
      assert Dump(t)[1..] == DumpAll(t.kids);
      DumpAllInOrder(t.kids);
    }
  }

  lemma {:induction false} DumpAllInOrder(ts: seq<Tree>)
    ensures LeafRecords(DumpAll(ts)) == Flat(ts)
    decreases ts, 0
  {
    if ts != [] {
      DumpInOrder(ts[0]);
      DumpAllInOrder(ts[1..]);
      LeafRecordsConcat(Dump(ts[0]), DumpAll(ts[1..]));
    }
  }
}
