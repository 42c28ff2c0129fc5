/** Both joins on the same vectors. */
module JoinAgreement {
  import opened Vectors
  import opened Joins
  import opened NestedJoins
  import opened HashJoins

  /** One side of a join whose keys are below the table size. */
  ghost predicate SmallKeys(pos: Vector, val: Vector)
    reads pos, val, val.buf
  {
    && pos.Readable() && val.Readable() && pos.length <= val.length
    && forall k :: 0 <= k < pos.length ==> 0 <= val.Contents()[k] < 128000
  }

  /**
    nested_join and hashjoin on keys from 0 to 127999 return the same multiset of pairs, if the
    positions of the first side fit the C int that the hash table stores; the table ends empty.
   */
  method JoinBothWays(ht: HashTable, pos1: Vector, val1: Vector, pos2: Vector, val2: Vector)
    returns (n1: Vector, n2: Vector, h1: Vector, h2: Vector)
    requires ht.Empty() && SmallKeys(pos1, val1) && SmallKeys(pos2, val2)
    requires forall k :: 0 <= k < pos1.length ==> -0x8000_0000 <= pos1.Contents()[k] < 0x8000_0000
    modifies ht.buckets
    ensures ht.Empty() && n1.Valid() && n2.Valid() && h1.Valid() && h2.Valid()
    ensures n1.length == n2.length && h1.length == h2.length
    ensures multiset(Zipped(n1, n2)) == multiset(Zipped(h1, h2))
    ensures IsJoin(n1.Contents(), n2.Contents(),
                   Sides(pos1.Contents(), val1.Contents(), pos2.Contents(), val2.Contents()), Equal)
  {
    ghost var s := Sides(pos1.Contents(), val1.Contents(), pos2.Contents(), val2.Contents());
    n1, n2 := NestedJoin(pos1, val1, pos2, val2);
    ghost var a1, a2 := n1.Contents(), n2.Contents();
    AsIntsSame(pos1.Contents());
    h1, h2 := HashJoin(ht, pos1, val1, pos2, val2);
    SmallKeysDoNotCollide(s);
    JoinsAgree(h1.Contents(), h2.Contents(), a1, a2, s);
  }
}
