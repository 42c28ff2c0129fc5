/** src/utils.c: binary searches over C ints, and rounding up to a power of two on 64-bit words. */
module Utils {

  /** C's `int`. The verifier rejects any sum that leaves the range. */
  newtype int32 = x: int | -0x8000_0000 <= x < 0x8000_0000

  /** Conversion of any integer to `int`, as a two's complement machine does it. */
  function ToInt(x: int): int32 {
    if -0x8000_0000 <= x < 0x8000_0000 then x as int32 else Wrapped(x)
  }

  function Wrapped(x: int): int32 {
    ((x + 0x8000_0000) % 0x1_0000_0000 - 0x8000_0000) as int32
  }

  /** `y` is the C int with the low 32 bits of `x`. */
  ghost predicate IsCInt(x: int, y: int) {
    -0x8000_0000 <= y < 0x8000_0000 && (x - y) % 0x1_0000_0000 == 0
  }

  lemma ToIntMeaning(x: int)
    ensures IsCInt(x, ToInt(x) as int)
  {
  }

  /** C's `x / 2`, which rounds toward zero. */
  function Half(x: int32): int32
    requires x > -0x8000_0000
  {
    if x < 0 then -(-x / 2) else x / 2
  }

  function Min(a: nat, b: nat): nat { if a < b then a else b }

  ghost predicate Ascending(s: seq<int>) {
    forall i, j :: 0 <= i < j < |s| ==> s[i] <= s[j]
  }

  function CountLess(s: seq<int>, n: int): nat {
    if s == [] then 0 else (if s[0] < n then 1 else 0) + CountLess(s[1..], n)
  }

  function CountAtMost(s: seq<int>, n: int): nat {
    if s == [] then 0 else (if s[0] <= n then 1 else 0) + CountAtMost(s[1..], n)
  }

  lemma {:induction false} CountLessSplit(s: seq<int>, n: int, k: nat)
    requires k <= |s|
    requires forall i :: 0 <= i < k ==> s[i] < n
    requires forall i :: k <= i < |s| ==> s[i] >= n
    ensures CountLess(s, n) == k
  {
    if s != [] {
      CountLessSplit(s[1..], n, if k == 0 then 0 else k - 1);
    }
  }

  lemma {:induction false} CountAtMostSplit(s: seq<int>, n: int, k: nat)
    requires k <= |s|
    requires forall i :: 0 <= i < k ==> s[i] <= n
    requires forall i :: k <= i < |s| ==> s[i] > n
    ensures CountAtMost(s, n) == k
  {
    if s != [] {
      CountAtMostSplit(s[1..], n, if k == 0 then 0 else k - 1);
    }
  }

  /** binary_search_left: how many elements are below `n`. No midpoint sum overflows up to length 2^30. */
  method BinarySearchLeft(buf: array<int>, n: int, length: nat) returns (r: nat)
    requires length <= buf.Length && length <= 0x4000_0000 && Ascending(buf[..length])
    ensures r <= length && r == CountLess(buf[..length], n)
    ensures forall k :: 0 <= k < r ==> buf[k] < n
    ensures forall k :: r <= k < length ==> buf[k] >= n
  {
    var first: int32 := 0;
    var last: int32 := ToInt(length - 1);
    var mid := Half(first + last);
    while first <= last
      invariant 0 <= first && -1 <= last as int < length && first <= last + 1
      invariant first <= last ==> mid == Half(first + last)
      invariant forall k :: 0 <= k < first as int ==> buf[k] < n
      invariant forall k :: last as int < k < length ==> buf[k] >= n
      decreases last - first + 1
    {
      assert forall k :: 0 <= k < length ==> buf[..length][k] == buf[k];
      if buf[mid] >= n {
        last := mid - 1;
      } else {
        first := mid + 1;
      }
      mid := Half(first + last);
    }
    r := first as nat;
    CountLessSplit(buf[..length], n, r);
  }

  /** binary_search_right: how many elements are at most `n`. */
  method BinarySearchRight(buf: array<int>, n: int, length: nat) returns (r: nat)
    requires length <= buf.Length && length <= 0x4000_0000 && Ascending(buf[..length])
    ensures r <= length && r == CountAtMost(buf[..length], n)
    ensures forall k :: 0 <= k < r ==> buf[k] <= n
    ensures forall k :: r <= k < length ==> buf[k] > n
  {
    var first: int32 := 0;
    var last: int32 := ToInt(length - 1);
    var mid := Half(first + last);
    while first <= last
      invariant 0 <= first && -1 <= last as int < length && first <= last + 1
      invariant first <= last ==> mid == Half(first + last)
      invariant forall k :: 0 <= k < first as int ==> buf[k] <= n
      invariant forall k :: last as int < k < length ==> buf[k] > n
      decreases last - first + 1
    {
      assert forall k :: 0 <= k < length ==> buf[..length][k] == buf[k];
      if buf[mid] > n {
        last := mid - 1;
      } else {
        first := mid + 1;
      }
      mid := Half(first + last);
    }
    r := first as nat;
    CountAtMostSplit(buf[..length], n, r);
  }

  // ---------- upper_power_of_two on 64-bit words ----------

  predicate IsPowerOfTwo(p: bv64) {
    p != 0 && p & (p - 1) == 0
  }

  /** Every bit below the leading one of `w`, as far as shifts up to 16 carry it, then one more. */
  function RoundUp(v: bv64): bv64 {
    var r1 := (v - 1) | ((v - 1) >> 1);
    var r2 := r1 | (r1 >> 2);
    var r4 := r2 | (r2 >> 4);
    var r8 := r4 | (r4 >> 8);
    (r8 | (r8 >> 16)) + 1
  }

  /** From 1 to 2^32 the result is a power of two and no smaller one reaches `v`. */
  lemma RoundUpIsLeast(v: bv64, p: bv64)
    requires 1 <= v <= 0x1_0000_0000
    ensures IsPowerOfTwo(RoundUp(v)) && v <= RoundUp(v)
    ensures IsPowerOfTwo(p) && v <= p ==> RoundUp(v) <= p
  {
    RoundUpReaches(v);
    if IsPowerOfTwo(p) && v <= p {
      assert RoundUp(v) <= p;
    }
  }

  lemma RoundUpReaches(v: bv64)
    requires 1 <= v <= 0x1_0000_0000
    ensures IsPowerOfTwo(RoundUp(v)) && v <= RoundUp(v)
  {
  }

  ghost predicate IsLeastPower(r: bv64, v: bv64) {
    IsPowerOfTwo(r) && v <= r && forall p: bv64 :: IsPowerOfTwo(p) && v <= p ==> r <= p
  }

  lemma RoundUpLeast(v: bv64)
    ensures 1 <= v <= 0x1_0000_0000 ==> IsLeastPower(RoundUp(v), v)
  {
    if 1 <= v <= 0x1_0000_0000 {
      RoundUpReaches(v);
      forall p: bv64 | IsPowerOfTwo(p) && v <= p ensures RoundUp(v) <= p {
        RoundUpIsLeast(v, p);
      }
    }
  }

  /** The statements of upper_power_of_two. */
  method Smear(v: bv64) returns (r: bv64)
    ensures r == RoundUp(v)
  {
    r := v - 1;
    r := r | (r >> 1);
    r := r | (r >> 2);
    r := r | (r >> 4);
    r := r | (r >> 8);
    r := r | (r >> 16);
    r := r + 1;
  }

  /** upper_power_of_two: from 1 to 2^32 the least power of two that is not below `v`. */
  method UpperPowerOfTwo(v: bv64) returns (r: bv64)
    ensures 1 <= v <= 0x1_0000_0000 ==> IsLeastPower(r, v)
  {
    r := Smear(v);
    RoundUpLeast(v);
  }

  /** A negative int as a size_t: every bit below the leading one is reached, and the increment wraps. */
  lemma RoundUpWraps(v: bv64)
    requires v >= 0xFFFF_FFFF_C000_0000
    ensures RoundUp(v) == 0
  {
  }

  /** The bound is tight: one more and the shifts do not reach the lowest bit. */
  lemma RoundUpBeyond()
    ensures !IsPowerOfTwo(RoundUp(0x1_0000_0001))
  {
    assert RoundUp(0x1_0000_0001) == 0x1_FFFF_FFFF;
  }
}
