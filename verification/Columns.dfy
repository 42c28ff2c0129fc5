/** A column with its index, and select_one of src/cs165_api.c, which picks the select that fits both. */
module Columns {
  import opened Utils
  import opened Vectors
  import opened Scans
  import opened Sorting
  import opened SortedIndexes
  import opened BTreeModel
  import opened BTreeHeap
  import opened BTreeIndex
  import opened BTreeSelect
  import opened IndexBuild

  datatype Kind = Primary | Unsorted

  datatype IndexType = NO_INDEX | BTREE | SORTED

  datatype ColumnIndex = NoIndex | Btree(tree: BTree) | Sorted(index: SortedIndex)

  /** What the index of a column holds. */
  datatype IndexValue = Nothing | Records(x: Index) | SortedCopy(column: seq<int>, data: seq<int>)

  datatype ColumnValue = ColumnValue(kind: Kind, values: seq<int>, index: IndexValue)

  class Column {
    var vector: Vector
    var kind: Kind
    var index: ColumnIndex
    ghost var repr: set<object>

    /** create_column, whose index starts out as NO_INDEX. */
    constructor (kind: Kind)
      ensures Is(ColumnValue(kind, [], Nothing)) && fresh(repr)
    {
      var v := new Vector(0);
      vector, this.kind, index := v, kind, NoIndex;
      repr := {this, v, v.buf};
    }

    /** The column stands on exactly the objects `repr`. */
    ghost predicate Valid()
      reads this, repr
    {
      && {this, vector} <= repr && vector.buf in repr && vector.Valid()
      && match index
         case NoIndex => repr == {this, vector, vector.buf}
         case Btree(t) =>
           && t in repr && Objs(t.layout) <= repr && t.Valid()
           && repr == {this, vector, vector.buf, t} + Objs(t.layout)
         case Sorted(i) =>
           && i in repr && {i.data, i.positions} <= repr && {i.data.buf, i.positions.buf} <= repr && i.Valid()
           && repr == {this, vector, vector.buf} + i.Repr()
    }

    ghost function Value(): ColumnValue
      requires Valid()
      reads this, repr
    {
      ColumnValue(kind, vector.Contents(),
                  match index
                  case NoIndex => Nothing
                  case Btree(t) => Records(t.index)
                  case Sorted(i) => SortedCopy(i.column, i.data.Contents()))
    }

    ghost predicate Is(c: ColumnValue)
      reads this, repr
    {
      Valid() && Value() == c
    }

    /** create_index: an index over the values that the column holds now. */
    method CreateIndex(want: IndexType) returns (ghost added: set<object>)
      requires Valid() && (want == SORTED ==> |Value().values| <= 0x8000_0000)
      modifies this
      ensures Valid() && repr <= old(repr) + added && fresh(added)
      ensures Value().kind == old(Value().kind) && Value().values == old(Value().values)
      ensures Indexes(Value().index, want, Value().values)
    {
      match want {
        case NO_INDEX =>
          index, repr := NoIndex, {this, vector, vector.buf};
          added := {};
        case BTREE => added := BuildBtree();
        case SORTED => added := BuildSorted();
      }
    }

    method BuildBtree() returns (ghost added: set<object>)
      requires Valid()
      modifies this
      ensures repr <= old(repr) + added && fresh(added)
      ensures var c := old(Value()); Is(ColumnValue(c.kind, c.values, Records(Bulk(c.values, |c.values|))))
    {
      var t := CreateBtreeIndex(vector);
      index, repr := Btree(t), {this, vector, vector.buf, t} + Objs(t.layout);
      added := {t} + Objs(t.layout);
    }

    method BuildSorted() returns (ghost added: set<object>)
      requires Valid() && |Value().values| <= 0x8000_0000
      modifies this
      ensures Valid() && Indexes(Value().index, SORTED, Value().values)
      ensures repr <= old(repr) + added && fresh(added)
      ensures Value().kind == old(Value().kind) && Value().values == old(Value().values)
    {
      var i;
      i, added := CreateSortedIndex(vector);
      PlaceSorted(i);
    }

    method PlaceSorted(i: SortedIndex)
      requires Valid() && i.Valid() && this !in i.Repr()
      modifies this`index, `repr
      ensures index == Sorted(i) && Is(ColumnValue(kind, vector.Contents(), SortedCopy(i.column, i.data.Contents())))
      ensures repr <= old(repr) + i.Repr() && i.Repr() == old(i.Repr())
    {
      index, repr := Sorted(i), {this, vector, vector.buf} + i.Repr();
    }

    /** select_one. */
    method SelectOne(low: MaybeInt, high: MaybeInt) returns (ret: Vector)
      requires Valid() && Selectable(Value())
      ensures fresh(ret) && fresh(ret.buf) && ret.Readable()
      ensures Answers(old(Value()), LowBound(low), HighBound(high), ret.Contents())
    {
      var l := LowBound(low);
      var h := HighBound(high);
      match kind {
        case Primary => ret := SelectOnePrimary(vector, l, h);
        case Unsorted => ret := SelectUnsorted(l, h);
      }
    }

    /** The inner switch of select_one. */
    method SelectUnsorted(l: int, h: int) returns (ret: Vector)
      requires Valid() && kind == Unsorted && Selectable(Value())
      ensures fresh(ret) && fresh(ret.buf) && ret.Readable()
      ensures Answers(old(Value()), l, h, ret.Contents())
    {
      match index {
        case NoIndex => ret := SelectOneUnsorted(vector, l, h, -1, -1, null);
        case Btree(t) => ret := SelectOneBtree(t, l, h);
        case Sorted(i) => ret := i.Select(l, h);
      }
    }
  }

  /** An index of the wanted type over `values`. */
  ghost predicate Indexes(x: IndexValue, want: IndexType, values: seq<int>) {
    match want
    case NO_INDEX => x == Nothing
    case BTREE => x == Records(Bulk(values, |values|))
    case SORTED => x.SortedCopy? && x.column == values
  }

  /** What the select a column is dispatched to needs of its caller. */
  ghost predicate Selectable(c: ColumnValue) {
    match c.kind
    case Primary =>
      |c.values| <= 0x4000_0000 && Ascending(c.values)
    case Unsorted =>
      match c.index
      case Nothing => |c.values| <= 0x7FFF_FFFF
      case Records(_) => true
      case SortedCopy(_, data) => |data| <= 0x4000_0000
  }

  /** What select_one returns: half-open ranges on plain and B+-tree columns, closed ones on sorted data. */
  ghost predicate Answers(c: ColumnValue, l: int, h: int, r: seq<int>) {
    match c.kind
    case Primary => r == Scan(c.values, l, h + 1, 0, |c.values|)
    case Unsorted =>
      match c.index
      case Nothing => r == Scan(c.values, l, h, 0, |c.values|)
      case Records(x) => r == Hits(InOrder(x.root), l, h)
      case SortedCopy(column, _) =>
        multiset(r) == multiset(Scan(column, l, h + 1, 0, |column|)) && AscendingAt(column, r)
  }
}
