/** src/persist.c: writing a B+-tree as raw node images, reading it back, and relinking its levels. */
module Persistence {
  import opened Records
  import opened BTreeModel
  import opened BTreeOrder
  import opened BTreeHeap
  import opened BTreeIndex
  import opened DumpModel
  import opened BTreeSelect
  import opened Relink
  import opened Vectors

  /** fwrite of a bt_node: all of its fields, pointers and unused buffer slots included. */
  datatype Image = Image(leaf: bool, length: nat, records: seq<Record>, children: seq<BtNode?>, next: BtNode?)

  predicate Readable(m: Image) {
    m.length <= |m.records| == NODE_SIZE && |m.children| == NODE_SIZE
  }

  /** The part of an image that the reader uses. */
  function Shown(m: Image): Entry
    requires m.length <= |m.records|
  {
    Entry(m.leaf, m.records[..m.length])
  }

  ghost predicate Shows(ms: seq<Image>, es: seq<Entry>) {
    |ms| == |es| && forall k :: 0 <= k < |ms| ==> ShowsAt(ms, es, k)
  }

  ghost predicate ShowsAt(ms: seq<Image>, es: seq<Entry>, k: nat)
    requires k < |ms| == |es|
  {
    Readable(ms[k]) && Shown(ms[k]) == es[k]
  }

  lemma ShowsConcat(a: seq<Image>, b: seq<Image>, ea: seq<Entry>, eb: seq<Entry>)
    requires Shows(a, ea) && Shows(b, eb)
    ensures Shows(a + b, ea + eb)
  {
    forall k | 0 <= k < |a + b| ensures ShowsAt(a + b, ea + eb, k) {
      if k < |a| { assert ShowsAt(a, ea, k); } else { assert ShowsAt(b, eb, k - |a|); }
    }
  }

  class Stream {
    var images: seq<Image>
    var pos: nat

    constructor ()
      ensures images == [] && pos == 0
    {
      images, pos := [], 0;
    }
  }

  // ---------- Writing ----------

  /** Everything that a node holds, its unused slots and pointers included. */
  ghost function NodeImage(n: BtNode): Image
    reads Own(n)
  {
    Image(n.leaf, n.length, n.records[..], n.children[..], n.next)
  }

  /** The nodes of a layout in preorder. */
  ghost function ImagesOf(l: Layout): seq<Image>
    reads Objs(l)
    decreases l, 1
  {
    [NodeImage(l.node)] + AllImages(l.kids, |l.kids|)
  }

  ghost function AllImages(ls: seq<Layout>, n: nat): seq<Image>
    requires n <= |ls|
    reads AllObjs(ls)
    decreases ls, 0, n
  {
    if n == 0 then [] else AllImages(ls, n - 1) + ImagesOf(ls[n - 1])
  }

  /** An inner node whose first `i` children have been written after the image of the node itself. */
  ghost predicate Persisting(fp: Stream, l: Layout, t: Tree, before: seq<Image>, written: seq<Image>, i: nat)
    reads fp, Objs(l)
  {
    && t.Node? && i <= |t.kids| && Holds(l, t) && AllRep(l.kids, t.kids) && fp !in Objs(l)
    && fp.images == before + written && Shows(written, [Entry(false, t.recs)] + DumpAll(t.kids[..i]))
    && written == [NodeImage(l.node)] + AllImages(l.kids, i)
  }

  /** The loop body of persist_btree_index. */
  method PersistKid(kid: BtNode, fp: Stream, ghost l: Layout, ghost t: Tree, ghost h: nat,
                    ghost before: seq<Image>, ghost written: seq<Image>, ghost i: nat) returns (ghost more: seq<Image>)
    requires Persisting(fp, l, t, before, written, i) && h > 0 && Body(t, h) && i < |t.kids| && kid == l.kids[i].node
    modifies fp
    ensures Persisting(fp, l, t, before, written + more, i + 1) && fp.pos == old(fp.pos)
    decreases h, 0
  {
    assert RepAt(l.kids, t.kids, i) && Filled(t.kids[i], h - 1);
    ObjsAllocated(l);
    AllObjsAllocated(l.kids);
    KidWithin(l, i);
    assert AllRep(l.kids, t.kids);
    ghost var images := AllImages(l.kids, i);
    more := PersistNode(kid, fp, l.kids[i], t.kids[i], h - 1);
    assert AllRep(l.kids, t.kids) && AllImages(l.kids, i) == images;
    MoreImages([NodeImage(l.node)], images, more);
    ImagesNext(t, i, written, more);
    MoreImages(before, written, more);
  }

  lemma MoreImages(a: seq<Image>, b: seq<Image>, c: seq<Image>)
    ensures a + b + c == a + (b + c)
  {
  }

  lemma ImagesNext(t: Tree, i: nat, written: seq<Image>, more: seq<Image>)
    requires t.Node? && i < |t.kids| && Shows(written, [Entry(false, t.recs)] + DumpAll(t.kids[..i]))
    requires Shows(more, Dump(t.kids[i]))
    ensures Shows(written + more, [Entry(false, t.recs)] + DumpAll(t.kids[..i + 1]))
  {
    var es := [Entry(false, t.recs)];
    ShowsConcat(written, more, es + DumpAll(t.kids[..i]), Dump(t.kids[i]));
    DumpAllNext(t.kids, i);
    assert es + DumpAll(t.kids[..i]) + Dump(t.kids[i]) == es + DumpAll(t.kids[..i + 1]);
  }

  /** persist_btree_index. */
  method PersistNode(root: BtNode, fp: Stream, ghost l: Layout, ghost t: Tree, ghost h: nat)
    returns (ghost written: seq<Image>)
    requires l.node == root && Rep(l, t) && Body(t, h) && fp !in Objs(l)
    modifies fp
    ensures fp.images == old(fp.images) + written && fp.pos == old(fp.pos)
    ensures Shows(written, Dump(t)) && written == ImagesOf(l)
    decreases h, 2
  {
    ObjsAllocated(l);
    var m := Image(root.leaf, root.length, root.records[..], root.children[..], root.next);
    ghost var before := fp.images;
    fp.images := fp.images + [m];
    written := [m];
    ImageShows(m, t);
    if !root.leaf {
      assert t.kids[..0] == [];
      ghost var more := PersistKids(root, fp, l, t, h, before, written);
      written := written + more;
    }
  }

  lemma ImageShows(m: Image, t: Tree)
    requires Readable(m) && Shown(m) == Entry(t.Leaf?, t.recs)
    ensures Shows([m], [Entry(t.Leaf?, t.recs)])
    ensures Shows([m], [Entry(t.Leaf?, t.recs)] + [])
  {
    assert ShowsAt([m], [Entry(t.Leaf?, t.recs)], 0);
    assert [Entry(t.Leaf?, t.recs)] + [] == [Entry(t.Leaf?, t.recs)];
  }

  /** The loop of persist_btree_index over the children of an inner node. */
  method PersistKids(root: BtNode, fp: Stream, ghost l: Layout, ghost t: Tree, ghost h: nat,
                     ghost before: seq<Image>, ghost written: seq<Image>) returns (ghost more: seq<Image>)
    requires l.node == root && Persisting(fp, l, t, before, written, 0) && h > 0 && Body(t, h)
    modifies fp
    ensures fp.images == before + (written + more) && fp.pos == old(fp.pos)
    ensures Shows(written + more, Dump(t)) && written + more == ImagesOf(l)
    decreases h, 1
  {
    more := [];
    ghost var all := written;
    var i := 0;
    while i < root.length
      invariant i <= root.length == |t.kids| == |l.kids| && all == written + more && fp.pos == old(fp.pos)
      invariant Persisting(fp, l, t, before, all, i)
    {
      ChildHere(root, i, l, t);
      ghost var kid := PersistKid(root.children[i], fp, l, t, h, before, all, i);
      MoreImages(written, more, kid);
      all, more := all + kid, more + kid;
      i := i + 1;
    }
    assert t.kids[..i] == t.kids;
  }

  lemma DumpAllNext(ts: seq<Tree>, i: nat)
    requires i < |ts|
    ensures DumpAll(ts[..i + 1]) == DumpAll(ts[..i]) + Dump(ts[i])
  {
    assert ts[..i + 1] == ts[..i] + [ts[i]];
    DumpAllConcat(ts[..i], [ts[i]]);
    assert [ts[i]][1..] == [] && DumpAll([ts[i]]) == Dump(ts[i]);
  }

  // ---------- Reading ----------

  /** fread of one bt_node: every field as it was written, stale pointers included. */
  method ReadNode(fp: Stream) returns (ret: BtNode)
    requires fp.pos < |fp.images| && Readable(fp.images[fp.pos])
    modifies fp`pos
    ensures fp.pos == old(fp.pos) + 1 && fresh(Own(ret)) && Buffers(ret)
    ensures var m := fp.images[old(fp.pos)];
            && ret.leaf == m.leaf && ret.length == m.length && ret.next == m.next
            && ret.records[..] == m.records && ret.children[..] == m.children
  {
    var m := fp.images[fp.pos];
    ret := new BtNode(m.leaf);
    ret.length, ret.next := m.length, m.next;
    forall k | 0 <= k < NODE_SIZE { ret.records[k] := m.records[k]; }
    forall k | 0 <= k < NODE_SIZE { ret.children[k] := m.children[k]; }
    fp.pos := fp.pos + 1;
    assert ret.records[..] == m.records;
  }

  /** The children read so far: whole, apart from each other, all new, and already pointed to. */
  ghost predicate LoadedKids(ret: BtNode, ls: seq<Layout>, ts: seq<Tree>)
    requires Buffers(ret)
    reads ret.children, AllObjs(ls)
  {
    && |ls| == |ts| <= NODE_SIZE && AllRep(ls, ts) && AllSeparate(ls) && Own(ret) !! AllObjs(ls)
    && forall k {:trigger ChildIs(ret, k, ls[k])} :: 0 <= k < |ls| ==> ChildIs(ret, k, ls[k])
  }

  /** load_btree_node on a file that shows `es`. */
  method LoadNode(fp: Stream, ghost es: seq<Entry>) returns (ret: BtNode, ghost l: Layout)
    requires fp.pos <= |fp.images| && Shows(fp.images[fp.pos..], es) && Parse(es).Parsed?
    modifies fp`pos
    ensures fp.pos <= |fp.images| && Shows(fp.images[fp.pos..], Parse(es).rest)
    ensures l.node == ret && Rep(l, Parse(es).tree) && Separate(l) && fresh(Objs(l))
    ensures ret.next == fp.images[old(fp.pos)].next
    decreases |es|, 1
  {
    assert ShowsAt(fp.images[fp.pos..], es, 0);
    ret := ReadNode(fp);
    forall k | 0 <= k < |es| - 1 ensures ShowsAt(fp.images[fp.pos..], es[1..], k) {
      assert ShowsAt(fp.images[old(fp.pos)..], es, k + 1);
    }
    l := Layout(ret, []);
    if !ret.leaf {
      l := LoadKids(fp, ret, es[1..], Parse(es).tree, Parse(es).rest);
    }
  }

  /** `ret->children[i] = kid` keeps the children read before. */
  method StoreKid(ret: BtNode, kid: BtNode, i: nat, ghost ls: seq<Layout>, ghost ts: seq<Tree>)
    requires Buffers(ret) && LoadedKids(ret, ls, ts) && i == |ls| < NODE_SIZE
    modifies ret.children
    ensures LoadedKids(ret, ls, ts) && ret.children[i] == kid
  {
    AllObjsAllocated(ls);
    assert AllRep(ls, ts) && forall k :: 0 <= k < i ==> ChildIs(ret, k, ls[k]);
    ghost var before := ret.children[..];
    ret.children[i] := kid;
    forall k | 0 <= k < i ensures ChildIs(ret, k, ls[k]) { assert ret.children[k] == before[k]; }
    assert AllRep(ls, ts);
  }

  /** The file at its reading position goes on with the trees `ts`, then `rest`. */
  ghost predicate Ahead(fp: Stream, es: seq<Entry>, ts: seq<Tree>, rest: seq<Entry>)
    reads fp
  {
    fp.pos <= |fp.images| && Shows(fp.images[fp.pos..], es) && ParseAll(es, |ts|) == ParsedAll(ts, rest)
  }

  lemma ParseNext(es: seq<Entry>, ts: seq<Tree>, rest: seq<Entry>)
    requires ts != [] && ParseAll(es, |ts|) == ParsedAll(ts, rest)
    ensures Parse(es).Parsed? && Parse(es).tree == ts[0]
    ensures ParseAll(Parse(es).rest, |ts| - 1) == ParsedAll(ts[1..], rest)
  {
  }

  /** One round of the loop of load_btree_node: the next child is read and pointed to. */
  method LoadKid(fp: Stream, ret: BtNode, i: nat, ghost es: seq<Entry>, ghost ls: seq<Layout>,
                 ghost done: seq<Tree>, ghost todo: seq<Tree>, ghost rest: seq<Entry>)
    returns (ghost lk: Layout, ghost es': seq<Entry>)
    requires Buffers(ret) && LoadedKids(ret, ls, done) && i == |ls| < NODE_SIZE && fp !in AllObjs(ls)
    requires todo != [] && Ahead(fp, es, todo, rest)
    modifies fp`pos, ret.children
    ensures |es'| < |es| && Ahead(fp, es', todo[1..], rest)
    ensures LoadedKids(ret, ls + [lk], done + [todo[0]]) && fresh(Objs(lk))
    ensures AllObjs(ls + [lk]) == AllObjs(ls) + Objs(lk)
    decreases |es|, 2
  {
    ParseNext(es, todo, rest);
    es' := Parse(es).rest;
    AllObjsAllocated(ls);
    assert LoadedKids(ret, ls, done);
    var kid;
    kid, lk := LoadNode(fp, es);
    assert LoadedKids(ret, ls, done);
    ObjsAllocated(lk);
    StoreKid(ret, kid, i, ls, done);
    assert Rep(lk, todo[0]);
    KidLoaded(ret, ls, done, lk, todo[0]);
  }

  /** The loop of load_btree_node over the children of an inner node. */
  method LoadKids(fp: Stream, ret: BtNode, ghost es: seq<Entry>, ghost t: Tree, ghost rest: seq<Entry>)
    returns (ghost l: Layout)
    requires t.Node? && |t.kids| == |t.recs| == ret.length <= NODE_SIZE
    requires Buffers(ret) && !ret.leaf && ret.records[..ret.length] == t.recs
    requires Ahead(fp, es, t.kids, rest)
    modifies fp`pos, ret.children
    ensures fp.pos <= |fp.images| && Shows(fp.images[fp.pos..], rest)
    ensures l.node == ret && Rep(l, t) && Separate(l) && fresh(AllObjs(l.kids))
    decreases |es|, 3
  {
    ghost var ls, cur, done, todo := [], es, [], t.kids;
    var i := 0;
    while i < ret.length
      invariant i == |ls| == |done| <= ret.length && done + todo == t.kids && |cur| <= |es|
      invariant Ahead(fp, cur, todo, rest) && LoadedKids(ret, ls, done) && fresh(AllObjs(ls))
    {
      ghost var lk;
      lk, cur := LoadKid(fp, ret, i, cur, ls, done, todo, rest);
      MoveOne(done, todo);
      ls, done, todo := ls + [lk], done + [todo[0]], todo[1..];
      i := i + 1;
    }
    l := Layout(ret, ls);
    assert todo == [] && done == t.kids;
    AllLoaded(ret, ls, t);
  }

  lemma MoveOne<T>(a: seq<T>, b: seq<T>)
    requires b != []
    ensures a + [b[0]] + b[1..] == a + b
  {
  }

  lemma AllLoaded(ret: BtNode, ls: seq<Layout>, t: Tree)
    requires t.Node? && |t.kids| == |t.recs| == ret.length <= NODE_SIZE
    requires Buffers(ret) && !ret.leaf && ret.records[..ret.length] == t.recs
    requires LoadedKids(ret, ls, t.kids)
    ensures Rep(Layout(ret, ls), t) && Separate(Layout(ret, ls))
  {
  }

  lemma {:induction false} KidLoaded(ret: BtNode, ls: seq<Layout>, ts: seq<Tree>, lk: Layout, t: Tree)
    requires Buffers(ret) && LoadedKids(ret, ls, ts) && |ls| < NODE_SIZE
    requires ret.children[|ls|] == lk.node && Rep(lk, t) && Separate(lk)
    requires Objs(lk) !! Own(ret) && Objs(lk) !! AllObjs(ls)
    ensures LoadedKids(ret, ls + [lk], ts + [t])
    ensures AllObjs(ls + [lk]) == AllObjs(ls) + Objs(lk)
  {
    ObjsConcat(ls, [lk]);
    SeparateConcat(ls, [lk]);
    Single(lk);
    SingleRep(lk, t);
    RepConcat(ls, [lk], ts, [t]);
    forall k | 0 <= k < |ls + [lk]| ensures ChildIs(ret, k, (ls + [lk])[k]) {
      if k < |ls| { assert ChildIs(ret, k, ls[k]); }
    }
  }

  lemma {:induction false} NullsDownward(n: nat)
    ensures Downward(Nulls(n))
  {
    var s := Nulls(n);
    forall k | 0 <= k < |s| - 1 ensures DownAt(s, k) {
      NullsAt(n, k);
      NullsAt(n, k + 1);
    }
  }

  /** load_btree_index on a file whose next part was written by persist_btree_index for `x`. */
  method LoadIndex(fp: Stream, ghost x: Index, ghost rest: seq<Entry>) returns (tree: BTree)
    requires Invariant(x) && fp.pos < |fp.images|
    requires Shows(fp.images[fp.pos..], Dump(x.root) + rest) && fp.images[fp.pos].next == null
    modifies fp`pos
    ensures fp.pos <= |fp.images| && Shows(fp.images[fp.pos..], rest)
    ensures tree.Valid() && fresh(tree) && fresh(Objs(tree.layout)) && tree.index == x
  {
    BodyRegular(x.root, x.level);
    ParseDump(x.root, rest);
    var root;
    ghost var l;
    root, l := LoadNode(fp, Dump(x.root) + rest);
    NullsDownward(x.level + 1);
    PlaceNexts(root, l, x.root, x.level, Nulls(x.level + 1));
    tree := new BTree.Over(root, l, x);
  }

  /** persist_btree_index from the root. */
  method PersistIndex(tree: BTree, fp: Stream) returns (ghost written: seq<Image>)
    requires tree.Valid() && fp !in Objs(tree.layout)
    modifies fp
    ensures fp.images == old(fp.images) + written && fp.pos == old(fp.pos)
    ensures Shows(written, Dump(tree.index.root)) && written == ImagesOf(tree.layout) && written[0].next == null
  {
    written := PersistNode(tree.root, fp, tree.layout, tree.index.root, tree.index.level);
  }

  /**
    Writing an index to a new file and loading it back: the same tree, on other nodes, with
    every level chained again.
   */
  method PersistAndLoad(tree: BTree) returns (copy: BTree)
    requires tree.Valid()
    ensures tree.Valid() && copy.Valid() && fresh(copy) && fresh(Objs(copy.layout)) && copy.index == tree.index
  {
    ObjsAllocated(tree.layout);
    var fp := new Stream();
    assert tree.Valid();
    ghost var written := PersistIndex(tree, fp);
    assert fp.images[fp.pos..] == written && Dump(tree.index.root) + [] == Dump(tree.index.root);
    assert tree.Valid();
    copy := LoadIndex(fp, tree.index, []);
    assert tree.Valid();
  }

  /** The loaded index gives the same answer to every range select. */
  method SelectsAgree(tree: BTree, low: int, high: int) returns (before: Vector, after: Vector)
    requires tree.Valid()
    ensures before.Valid() && after.Valid() && before.Contents() == after.Contents()
    ensures before.Contents() == Hits(InOrder(tree.index.root), low, high)
  {
    var copy := PersistAndLoad(tree);
    ObjsAllocated(copy.layout);
    assert copy.Valid();
    before := SelectOneBtree(tree, low, high);
    assert copy.Valid();
    after := SelectOneBtree(copy, low, high);
  }
}
