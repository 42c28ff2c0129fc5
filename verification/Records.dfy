/** Records of an index and the sequence vocabulary shared by every module. */
module Records {

  /** `record` of src/include/btree.h: the position of a value in its column, and the value. */
  datatype Record = Record(pos: nat, val: int)

  ghost predicate Sorted(s: seq<Record>) {
    forall i, j :: 0 <= i < j < |s| ==> s[i].val <= s[j].val
  }

  function InsertAt<T>(s: seq<T>, i: nat, x: T): seq<T>
    requires i <= |s|
  {
    s[..i] + [x] + s[i..]
  }
}
