/** src/vector.c: the growable buffer that holds columns, positions and results. */
module Vectors {

  const INITIAL_LENGTH: nat := 32

  /** The least power of two not below `n`; module Utils proves the word-level computation of it. */
  function PowerAtLeast(n: nat): (p: nat)
    ensures n <= p && 1 <= p
  {
    if n <= 1 then 1 else 2 * PowerAtLeast((n + 1) / 2)
  }

  ghost predicate IsPower(p: nat)
  {
    p == 1 || (p > 0 && p % 2 == 0 && IsPower(p / 2))
  }

  lemma {:induction false} PowerIsLeast(n: nat, q: nat)
    ensures IsPower(PowerAtLeast(n))
    ensures IsPower(q) && n <= q ==> PowerAtLeast(n) <= q
    decreases n
  {
    if n > 1 {
      PowerIsLeast((n + 1) / 2, q / 2);
    }
  }

  /** The room that create_vector makes, from its argument as a signed number. */
  function Capacity(length: int): (n: nat)
  {
    if length < 0 then 0 else if length < INITIAL_LENGTH then INITIAL_LENGTH else PowerAtLeast(length)
  }

  /** `m` is the least power of two that reaches both `least` and `n`. */
  ghost predicate IsRoom(m: nat, least: nat, n: nat) {
    && IsPower(m) && least <= m && n <= m
    && forall q: nat :: IsPower(q) && least <= q && n <= q ==> m <= q
  }

  lemma SmallPowers()
    ensures IsPower(32) && IsPower(64)
  {
    assert IsPower(1) && IsPower(2) && IsPower(4) && IsPower(8) && IsPower(16);
  }

  /** The room of a new vector: the least power of two from 32 on that the wanted length fits in. */
  lemma CapacityIsRoom(length: int)
    ensures length >= 0 ==> IsRoom(Capacity(length), 32, length)
    ensures length < 0 ==> Capacity(length) == 0
  {
    SmallPowers();
    if length >= 0 {
      forall q: nat ensures IsPower(PowerAtLeast(length)) && (IsPower(q) && length <= q ==> PowerAtLeast(length) <= q) {
        PowerIsLeast(length, q);
      }
      assert IsPower(Capacity(length));
    }
  }

  /** What vector_cat doubles up to. */
  function Doubled(start: nat, total: nat): (n: nat)
    requires start > 0
    ensures start <= n && total <= n
    decreases total - start
  {
    if start < total then Doubled(2 * start, total) else start
  }

  /** The room of a vector of `n` elements after vector_cat of `m` more, if it had room for `old`. */
  function CatRoom(n: nat, m: nat, old': nat): nat {
    var room := Doubled(if n == 0 then 64 else n, n + m);
    if room > n then room else old'
  }

  /** Doubling stops at the first power of two times the start that reaches the total. */
  lemma {:induction false} DoubledStops(start: nat, total: nat, p: nat)
    requires start > 0 && IsPower(p) && total <= start * p
    ensures Doubled(start, total) <= start * p
    ensures Doubled(start, total) == start || Doubled(start, total) < 2 * total
    decreases total - start
  {
    if start < total {
      assert p > 1 && p == 2 * (p / 2) && start * p == 2 * start * (p / 2);
      DoubledStops(2 * start, total, p / 2);
    }
  }

  /** Doubling a power of two gives powers of two, so 64 grows to the least one that reaches the total. */
  lemma {:induction false} DoubledIsRoom(start: nat, total: nat)
    requires IsPower(start)
    ensures IsRoom(Doubled(start, total), start, total)
    decreases total - start
  {
    if start < total {
      DoubledIsRoom(2 * start, total);
      forall q: nat | IsPower(q) && start <= q && total <= q ensures Doubled(start, total) <= q {
        PowersApart(start, q);
      }
    }
  }

  /** The next power of two is twice as large. */
  lemma {:induction false} PowersApart(p: nat, q: nat)
    requires IsPower(p) && IsPower(q) && p < q
    ensures 2 * p <= q
  {
    if p > 1 { PowersApart(p / 2, q / 2); }
  }

  class Vector {
    var buf: array<int>
    var length: nat
    var maxLength: nat

    /** What create_vector always returns; without room for one element it must not grow. */
    predicate Readable()
      reads this
    {
      length <= maxLength == buf.Length
    }

    predicate Valid()
      reads this
    {
      Readable() && 1 <= maxLength
    }

    function Contents(): seq<int>
      requires Readable()
      reads this, buf
    {
      buf[..length]
    }

    /**
      create_vector. A negative argument is a size_t above 2^64 - 2^30, which upper_power_of_two
      rounds up to 0 (Utils.RoundUpWraps): a vector without room for a single element.
     */
    constructor (length: int)
      requires -0x4000_0000 <= length
      ensures Readable() && Contents() == [] && fresh(buf)
      ensures 0 <= length ==> Valid() && length <= maxLength
      ensures maxLength == Capacity(length) && (0 <= length ==> IsRoom(maxLength, 32, length))
    {
      CapacityIsRoom(length);
      var n := Capacity(length);
      buf := new int[n];
      this.length := 0;
      maxLength := n;
    }

    /** realloc to `n` elements. */
    method Reallocate(n: nat)
      requires length <= buf.Length && length <= n && 1 <= n
      modifies `buf, `maxLength
      ensures Valid() && maxLength == n && buf[..length] == old(buf[..length]) && fresh(buf)
    {
      var b := new int[n];
      forall k | 0 <= k < length { b[k] := buf[k]; }
      buf := b;
      maxLength := n;
    }

    /** vector_insert: appends, doubling the buffer when it is full. */
    method Insert(val: int) returns (pos: nat)
      requires Valid()
      modifies this, buf
      ensures Valid() && (buf == old(buf) || fresh(buf))
      ensures Contents() == old(Contents()) + [val] && pos == old(length)
      ensures maxLength == if old(length) < old(maxLength) then old(maxLength) else 2 * old(maxLength)
    {
      if length >= maxLength {
        Reallocate(2 * maxLength);
      }
      buf[length] := val;
      length := length + 1;
      return length - 1;
    }

    /** vector_cat: appends all of `from`, which may be this very vector. */
    method Cat(from: Vector)
      requires Readable() && from.Readable() && (from == this || from.buf != buf)
      modifies this, buf
      ensures Valid() && (buf == old(buf) || fresh(buf))
      ensures Contents() == old(Contents()) + old(from.Contents())
      ensures maxLength == CatRoom(old(length), old(from.length), old(maxLength))
    {
      var newLength := DoubleUntil(if length == 0 then 64 else length, length + from.length);
      if newLength > length {
        ghost var b := from.Contents();
        Reallocate(newLength);
        assert from.Contents() == b;
      }
      CopyIn(from);
    }

    /** memcpy of all of `from` behind the elements of this vector. */
    method CopyIn(from: Vector)
      requires Valid() && from.Readable() && length + from.length <= maxLength && (from == this || from.buf != buf)
      modifies `length, buf
      ensures Valid() && buf == old(buf) && maxLength == old(maxLength)
      ensures Contents() == old(Contents()) + old(from.Contents())
    {
      ghost var a, b := Contents(), from.Contents();
      var n, m := length, from.length;
      assert forall k :: 0 <= k < m ==> from.buf[k] == from.buf[..m][k] == b[k];
      forall k | 0 <= k < m { buf[n + k] := from.buf[k]; }
      length := length + m;
      assert buf[..n] == a;
      forall k | 0 <= k < m ensures buf[n + k] == b[k] {}
      assert buf[..length] == a + b;
    }
  }

  /** The loop of vector_cat. */
  method DoubleUntil(start: nat, total: nat) returns (newLength: nat)
    requires start > 0
    ensures newLength == Doubled(start, total)
  {
    newLength := start;
    while newLength < total
      invariant 1 <= newLength && Doubled(newLength, total) == Doubled(start, total)
      decreases total - newLength
    {
      newLength := newLength * 2;
    }
  }

  /** duplicate_vector. */
  method Duplicate(v: Vector) returns (ret: Vector)
    requires v.Readable()
    ensures fresh(ret) && fresh(ret.buf) && ret.Valid() && ret.Contents() == v.Contents()
    ensures IsRoom(ret.maxLength, 64, v.length)
  {
    ret := new Vector(v.length);
    ret.Cat(v);
    SmallPowers();
    DoubledIsRoom(64, v.length);
  }
}
