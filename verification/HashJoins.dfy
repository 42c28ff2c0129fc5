/** src/hashjoin.c: a chained hash table over one side, probed with the other. */
module HashJoins {
  import opened Utils
  import opened Vectors
  import opened Joins

  const HASH_TABLE_SIZE: nat := 128000

  /** hash: C's remainder, which takes the sign of `n`. */
  function Hash(n: int): int {
    if n >= 0 then n % HASH_TABLE_SIZE else -(-n % HASH_TABLE_SIZE)
  }

  /** The keys whose bucket exists: the non-negative ones and the negative multiples of the table size. */
  predicate Hashable(n: int) { Hash(n) >= 0 }

  /** The first `n` keys have buckets. */
  predicate AllHashable(keys: seq<int>, n: nat)
    requires n <= |keys|
  {
    forall k :: 0 <= k < n ==> HashableAt(keys, k)
  }

  predicate HashableAt(keys: seq<int>, k: nat)
    requires k < |keys|
  {
    Hashable(keys[k])
  }

  /** C's remainder by 128000: the quotient rounds toward zero. */
  lemma HashIsRemainder(n: int)
    ensures (n - Hash(n)) % 128000 == 0
    ensures n >= 0 ==> 0 <= Hash(n) < 128000
    ensures n < 0 ==> -128000 < Hash(n) <= 0
  {
  }

  /** Which keys have a bucket, and which one. */
  lemma HashableMeaning(n: int)
    ensures Hashable(n) <==> n >= 0 || n % 128000 == 0
    ensures Hashable(n) ==> Hash(n) == n % 128000
  {
  }

  /** Two keys that have buckets share one exactly if they are congruent. */
  lemma SameBucketMeaning(x: int, y: int)
    requires Hashable(x) && Hashable(y)
    ensures SameBucket(x, y) <==> x % 128000 == y % 128000
  {
    HashableMeaning(x);
    HashableMeaning(y);
  }

  type Entry = (int, int)

  class HtNode {
    const pos: int
    const val: int
    const next: HtNode?
    ghost const chain: seq<Entry>

    constructor (pos: int, val: int, next: HtNode?)
      requires Linked(next)
      ensures Linked(this) && Chain(this) == [(pos, val)] + Chain(next)
    {
      this.pos, this.val, this.next := pos, val, next;
      chain := [(pos, val)] + Chain(next);
    }
  }

  /** The entries of a bucket, from its first node on. */
  ghost function Chain(n: HtNode?): seq<Entry> {
    if n == null then [] else n.chain
  }

  ghost predicate Linked(n: HtNode?)
    decreases |Chain(n)|
  {
    n != null ==> n.chain == [(n.pos, n.val)] + Chain(n.next) && Linked(n.next)
  }

  /** An entry put in front of bucket `b`. */
  ghost function WithEntry(chains: seq<seq<Entry>>, b: nat, e: Entry): seq<seq<Entry>>
    requires b < |chains|
  {
    chains[b := [e] + chains[b]]
  }

  class HashTable {
    const buckets: array<HtNode?>

    ghost predicate Valid()
      reads buckets
    {
      buckets.Length == HASH_TABLE_SIZE && forall b :: 0 <= b < HASH_TABLE_SIZE ==> Linked(buckets[b])
    }

    ghost predicate Empty()
      reads buckets
    {
      Valid() && forall b :: 0 <= b < HASH_TABLE_SIZE ==> buckets[b] == null
    }

    /** What every bucket holds, from its first node on. */
    ghost function Chains(): (c: seq<seq<Entry>>)
      requires buckets.Length == HASH_TABLE_SIZE
      reads buckets
      ensures |c| == HASH_TABLE_SIZE && forall b :: 0 <= b < HASH_TABLE_SIZE ==> c[b] == Chain(buckets[b])
    {
      seq(HASH_TABLE_SIZE, b requires 0 <= b < buckets.Length reads buckets => Chain(buckets[b]))
    }

    /** The global table starts with every bucket NULL. */
    constructor ()
      ensures Empty() && fresh(buckets)
    {
      buckets := new HtNode?[HASH_TABLE_SIZE](i => null);
    }

    /** add_to_ht: the entry goes to the front of its bucket; the position becomes a C int. */
    method Add(pos: int, val: int)
      requires Valid() && Hashable(val)
      modifies buckets
      ensures Valid() && Chains() == WithEntry(old(Chains()), Hash(val), (ToInt(pos) as int, val))
    {
      var bucket := Hash(val);
      var node := new HtNode(ToInt(pos) as int, val, buckets[bucket]);
      buckets[bucket] := node;
    }

    /** destroy_ht. */
    method Destroy()
      requires Valid()
      modifies buckets
      ensures Empty()
    {
      var i := 0;
      while i < HASH_TABLE_SIZE
        invariant i <= HASH_TABLE_SIZE && Valid()
        invariant forall b :: 0 <= b < i ==> buckets[b] == null
      {
        buckets[i] := null;
        i := i + 1;
      }
    }
  }

  // ---------- What the table holds and what a probe emits ----------

  /** Two keys fall into one bucket. */
  predicate SameBucket(x: int, y: int) { Hash(x) == Hash(y) }

  /** Positions as C ints. */
  function AsInts(p: seq<int>): (r: seq<int>)
    ensures |r| == |p| && forall k :: 0 <= k < |p| ==> r[k] == ToInt(p[k]) as int
  {
    seq(|p|, k requires 0 <= k < |p| => ToInt(p[k]) as int)
  }

  lemma AsIntsSame(p: seq<int>)
    requires forall k :: 0 <= k < |p| ==> -0x8000_0000 <= p[k] < 0x8000_0000
    ensures AsInts(p) == p
  {
  }

  /** Bucket b after the first n rows of the first side: its rows, latest first. */
  function Bucket(s: Sides, b: int, n: nat): seq<Entry>
    requires s.Valid() && n <= |s.pos1|
  {
    if n == 0 then []
    else (if Hash(s.val1[n - 1]) == b then [(s.pos1[n - 1], s.val1[n - 1])] else []) + Bucket(s, b, n - 1)
  }

  /** What a probe with position y emits along `chain`. */
  function Emitted(chain: seq<Entry>, y: int): seq<Pair> {
    if chain == [] then [] else [(chain[0].0, y)] + Emitted(chain[1..], y)
  }

  /** The first n rows of the first side that share a bucket with row m of the second, latest first. */
  function ColumnCells(s: Sides, n: nat, m: nat): seq<RowPair>
    requires s.Valid() && n <= |s.pos1| && m < |s.pos2|
  {
    if n == 0 then [] else CellAt(s, n - 1, m) + ColumnCells(s, n - 1, m)
  }

  function CellAt(s: Sides, r: nat, m: nat): seq<RowPair>
    requires s.Valid() && r < |s.pos1| && m < |s.pos2|
  {
    if SameBucket(s.val1[r], s.val2[m]) then [(r, m)] else []
  }

  /** All rows of the first side against the first m of the second. */
  function HashCells(s: Sides, m: nat): seq<RowPair>
    requires s.Valid() && m <= |s.pos2|
  {
    if m == 0 then [] else HashCells(s, m - 1) + ColumnCells(s, |s.pos1|, m - 1)
  }

  /** A probe of its own bucket emits one column of the join. */
  lemma {:induction false} ProbeIsColumn(s: Sides, m: nat, n: nat)
    requires s.Valid() && n <= |s.pos1| && m < |s.pos2|
    ensures Emitted(Bucket(s, Hash(s.val2[m]), n), s.pos2[m]) == PairsOf(s, ColumnCells(s, n, m))
  {
    if n > 0 {
      ProbeIsColumn(s, m, n - 1);
      PairsConcat(s, CellAt(s, n - 1, m), ColumnCells(s, n - 1, m));
      EmittedNext(s, m, n - 1, Bucket(s, Hash(s.val2[m]), n - 1));
    }
  }

  lemma EmittedNext(s: Sides, m: nat, n: nat, b: seq<Entry>)
    requires s.Valid() && n < |s.pos1| && m < |s.pos2|
    ensures Emitted((if Hash(s.val1[n]) == Hash(s.val2[m]) then [(s.pos1[n], s.val1[n])] else []) + b, s.pos2[m])
            == PairsOf(s, CellAt(s, n, m)) + Emitted(b, s.pos2[m])
  {
    if Hash(s.val1[n]) == Hash(s.val2[m]) {
      assert ([(s.pos1[n], s.val1[n])] + b)[1..] == b;
      assert PairsOf(s, CellAt(s, n, m)) == [(s.pos1[n], s.pos2[m])];
    } else {
      assert [] + b == b && PairsOf(s, CellAt(s, n, m)) == [];
    }
  }

  /** A walk that has reached `rest`: what it emitted and what is still to come make up `total`. */
  ghost predicate Walking(before: seq<Pair>, now: seq<Pair>, rest: seq<Entry>, total: seq<Entry>, y: int) {
    now + Emitted(rest, y) == before + Emitted(total, y)
  }

  lemma WalkOn(before: seq<Pair>, a: seq<Pair>, b: seq<Pair>, rest: seq<Entry>, total: seq<Entry>, y: int)
    requires rest != [] && b == a + [(rest[0].0, y)] && Walking(before, a, rest, total, y)
    ensures Walking(before, b, rest[1..], total, y)
  {
    assert b + Emitted(rest[1..], y) == a + Emitted(rest, y);
  }

  ghost predicate Results(r1: Vector, r2: Vector)
    reads r1, r2
  {
    r1.Valid() && r2.Valid() && r1.length == r2.length && r1 != r2 && r1.buf != r2.buf
  }

  /** The walk along one bucket. */
  method Probe(first: HtNode?, y: int, r1: Vector, r2: Vector)
    requires Linked(first) && Results(r1, r2)
    modifies r1, r2, r1.buf, r2.buf
    ensures Results(r1, r2)
    ensures (r1.buf == old(r1.buf) || fresh(r1.buf)) && (r2.buf == old(r2.buf) || fresh(r2.buf))
    ensures Walking(old(Zipped(r1, r2)), Zipped(r1, r2), [], Chain(first), y)
  {
    ghost var before := Zipped(r1, r2);
    var cur := first;
    while cur != null
      invariant Linked(cur) && Results(r1, r2)
      invariant (r1.buf == old(r1.buf) || fresh(r1.buf)) && (r2.buf == old(r2.buf) || fresh(r2.buf))
      invariant Walking(before, Zipped(r1, r2), Chain(cur), Chain(first), y)
      decreases |Chain(cur)|
    {
      ghost var a, c1, c2 := Zipped(r1, r2), r1.Contents(), r2.Contents();
      var at1 := r1.Insert(cur.pos);
      var at2 := r2.Insert(y);
      ZipAppend(c1, c2, cur.pos, y);
      WalkOn(before, a, Zipped(r1, r2), Chain(cur), Chain(first), y);
      assert Chain(cur)[1..] == Chain(cur.next);
      cur := cur.next;
    }
  }

  // ---------- hashjoin ----------

  /** All buckets after the first n rows of the first side. */
  ghost function Buckets(s: Sides, n: nat): (c: seq<seq<Entry>>)
    requires s.Valid() && n <= |s.pos1|
    ensures |c| == HASH_TABLE_SIZE && forall b :: 0 <= b < HASH_TABLE_SIZE ==> c[b] == Bucket(s, b, n)
  {
    seq(HASH_TABLE_SIZE, b requires 0 <= b < HASH_TABLE_SIZE => Bucket(s, b, n))
  }

  /** The table holds the first n rows of the first side. */
  ghost predicate Built(ht: HashTable, s: Sides, n: nat)
    requires s.Valid() && n <= |s.pos1|
    reads ht.buckets
  {
    ht.Valid() && ht.Chains() == Buckets(s, n)
  }

  /** `z` are the pairs of all probes of rows 0 .. m - 1 of the second side. */
  ghost predicate Probed(z: seq<Pair>, s: Sides, m: nat)
    requires s.Valid() && m <= |s.pos2|
  {
    Added([], z, s, HashCells(s, m))
  }

  lemma ProbeNext(a: seq<Pair>, b: seq<Pair>, s: Sides, m: nat)
    requires s.Valid() && m < |s.pos2| && Probed(a, s, m)
    requires Walking(a, b, [], Bucket(s, Hash(s.val2[m]), |s.pos1|), s.pos2[m])
    ensures Probed(b, s, m + 1)
  {
    ProbeIsColumn(s, m, |s.pos1|);
    assert b + [] == b;
    AddedBoth([], a, b, s, HashCells(s, m), ColumnCells(s, |s.pos1|, m));
  }

  lemma ProbeNone(s: Sides)
    requires s.Valid()
    ensures Probed([], s, 0)
  {
    AddedNone([], s);
  }

  lemma {:induction false} ColumnCount(s: Sides, n: nat, m: nat, p: Pair)
    requires s.Valid() && n <= |s.pos1| && m < |s.pos2|
    ensures Times(s, ColumnCells(s, n, m), p, Column(s, SameBucket, 0, n, m, p))
  {
    TimesOne(s, (0, 0), p);
    if n > 0 {
      ColumnCount(s, n - 1, m, p);
      TimesOne(s, (n - 1, m), p);
      TimesConcat(s, CellAt(s, n - 1, m), ColumnCells(s, n - 1, m), p,
                  Cell(s, SameBucket, n - 1, m, p), Column(s, SameBucket, 0, n - 1, m, p));
    }
  }

  lemma {:induction false} HashCount(s: Sides, m: nat, p: Pair)
    requires s.Valid() && m <= |s.pos2|
    ensures Times(s, HashCells(s, m), p, Block(s, SameBucket, 0, |s.pos1|, 0, m, p))
  {
    var n := |s.pos1|;
    if m == 0 {
      TimesOne(s, (0, 0), p);
      BlockEmpty(s, SameBucket, 0, n, 0, p);
    } else {
      HashCount(s, m - 1, p);
      ColumnCount(s, n, m - 1, p);
      TimesConcat(s, HashCells(s, m - 1), ColumnCells(s, n, m - 1), p,
                  Block(s, SameBucket, 0, n, 0, m - 1, p), Column(s, SameBucket, 0, n, m - 1, p));
      BlockNextColumn(s, SameBucket, n, m - 1, p);
    }
  }

  lemma ProbedIsJoin(a: seq<int>, b: seq<int>, s: Sides)
    requires s.Valid() && |a| == |b| && Probed(Zip(a, b), s, |s.pos2|)
    ensures IsJoin(a, b, s, SameBucket) && Zip(a, b) == PairsOf(s, HashCells(s, |s.pos2|))
  {
    forall p: Pair ensures JoinedAt(a, b, s, SameBucket, p) { HashCount(s, |s.pos2|, p); }
  }

  /** What add_to_ht does to the buckets is what one more row does to them. */
  lemma BucketsNext(s: Sides, n: nat)
    requires s.Valid() && n < |s.pos1| && Hashable(s.val1[n])
    ensures Buckets(s, n + 1) == WithEntry(Buckets(s, n), Hash(s.val1[n]), (s.pos1[n], s.val1[n]))
  {
    forall b | 0 <= b < HASH_TABLE_SIZE
      ensures Buckets(s, n + 1)[b] == WithEntry(Buckets(s, n), Hash(s.val1[n]), (s.pos1[n], s.val1[n]))[b]
    {
      assert Bucket(s, b, n + 1) == (if Hash(s.val1[n]) == b then [(s.pos1[n], s.val1[n])] else []) + Bucket(s, b, n);
    }
  }

  /** The first loop of hashjoin after `n` rows. */
  ghost predicate Filling(ht: HashTable, pos1: Vector, val1: Vector, s: Sides, n: nat)
    reads ht.buckets, pos1, val1, pos1.buf, val1.buf
  {
    && s.Valid() && n <= |s.pos1| && Built(ht, s, n)
    && pos1.Readable() && val1.Readable() && s.pos1 == AsInts(pos1.Contents()) && s.val1 == val1.Contents()
  }

  /** The body of the first loop of hashjoin. */
  method AddRow(ht: HashTable, pos1: Vector, val1: Vector, n: nat, ghost s: Sides)
    requires Filling(ht, pos1, val1, s, n) && n < |s.pos1| && HashableAt(s.val1, n)
    modifies ht.buckets
    ensures Filling(ht, pos1, val1, s, n + 1)
  {
    assert pos1.buf[n] == pos1.Contents()[n] && val1.buf[n] == s.val1[n];
    ht.Add(pos1.buf[n], val1.buf[n]);
    BucketsNext(s, n);
  }

  lemma BuiltNone(ht: HashTable, s: Sides)
    requires ht.Empty() && s.Valid()
    ensures Built(ht, s, 0)
  {
  }

  /** The first loop of hashjoin. */
  method Build(ht: HashTable, pos1: Vector, val1: Vector, ghost s: Sides)
    requires Filling(ht, pos1, val1, s, 0) && AllHashable(s.val1, |s.pos1|)
    modifies ht.buckets
    ensures Filling(ht, pos1, val1, s, |s.pos1|)
  {
    var i := 0;
    while i < pos1.length
      invariant i <= |s.pos1| == pos1.length && Filling(ht, pos1, val1, s, i)
    {
      AddRow(ht, pos1, val1, i, s);
      i := i + 1;
    }
    AllFilled(ht, pos1, val1, s, i);
  }

  lemma AllFilled(ht: HashTable, pos1: Vector, val1: Vector, s: Sides, n: nat)
    requires Filling(ht, pos1, val1, s, n) && n == |s.pos1|
    ensures Filling(ht, pos1, val1, s, |s.pos1|)
  {
  }

  /** Every bucket holds its rows of the first side. */
  ghost predicate Filled(ht: HashTable, s: Sides)
    requires s.Valid()
    reads ht.buckets
  {
    ht.Valid() && forall b :: 0 <= b < HASH_TABLE_SIZE ==> BucketIs(ht, s, b)
  }

  ghost predicate BucketIs(ht: HashTable, s: Sides, b: nat)
    requires s.Valid() && b < ht.buckets.Length
    reads ht.buckets
  {
    Chain(ht.buckets[b]) == Bucket(s, b, |s.pos1|)
  }

  lemma BuiltFilled(ht: HashTable, s: Sides)
    requires s.Valid() && Built(ht, s, |s.pos1|)
    ensures Filled(ht, s)
  {
    forall b | 0 <= b < HASH_TABLE_SIZE ensures BucketIs(ht, s, b) {
      assert ht.Chains()[b] == Buckets(s, |s.pos1|)[b];
    }
  }

  /** The second loop of hashjoin after `i` rows: table, second side and results, apart from each other. */
  ghost predicate Probing(ht: HashTable, pos2: Vector, val2: Vector, r1: Vector, r2: Vector, s: Sides, i: nat)
    reads ht.buckets, pos2, val2, pos2.buf, val2.buf, r1, r2, r1.buf, r2.buf
  {
    && s.Valid() && Filled(ht, s) && i <= |s.pos2|
    && pos2.Readable() && val2.Readable() && pos2.Contents() == s.pos2 && val2.Contents() == s.val2
    && {pos2, val2} !! {r1, r2} && {pos2.buf, val2.buf} !! {r1.buf, r2.buf}
    && Results(r1, r2) && Probed(Zipped(r1, r2), s, i)
  }

  /** The body of the second loop of hashjoin. */
  method ProbeRow(ht: HashTable, pos2: Vector, val2: Vector, i: nat, r1: Vector, r2: Vector, ghost s: Sides)
    requires Probing(ht, pos2, val2, r1, r2, s, i) && i < |s.pos2| && Hashable(s.val2[i])
    modifies r1, r2, r1.buf, r2.buf
    ensures Probing(ht, pos2, val2, r1, r2, s, i + 1)
    ensures (r1.buf == old(r1.buf) || fresh(r1.buf)) && (r2.buf == old(r2.buf) || fresh(r2.buf))
  {
    assert pos2.buf[i] == s.pos2[i] && val2.buf[i] == s.val2[i];
    var bucket := Hash(val2.buf[i]);
    ghost var z := Zipped(r1, r2);
    assert BucketIs(ht, s, bucket);
    Probe(ht.buckets[bucket], pos2.buf[i], r1, r2);
    ProbeNext(z, Zipped(r1, r2), s, i);
  }

  /** The second loop of hashjoin. */
  method ProbeAll(ht: HashTable, pos2: Vector, val2: Vector, r1: Vector, r2: Vector, ghost s: Sides)
    requires Probing(ht, pos2, val2, r1, r2, s, 0) && AllHashable(s.val2, |s.pos2|)
    modifies r1, r2, r1.buf, r2.buf
    ensures Probing(ht, pos2, val2, r1, r2, s, |s.pos2|)
    ensures (r1.buf == old(r1.buf) || fresh(r1.buf)) && (r2.buf == old(r2.buf) || fresh(r2.buf))
  {
    var i := 0;
    while i < pos2.length
      invariant i <= |s.pos2| == pos2.length
      invariant Probing(ht, pos2, val2, r1, r2, s, i)
      invariant (r1.buf == old(r1.buf) || fresh(r1.buf)) && (r2.buf == old(r2.buf) || fresh(r2.buf))
    {
      assert HashableAt(s.val2, i);
      ProbeRow(ht, pos2, val2, i, r1, r2, s);
      i := i + 1;
    }
  }

  method MakeResults() returns (r1: Vector, r2: Vector)
    ensures Results(r1, r2) && Zipped(r1, r2) == []
    ensures fresh(r1) && fresh(r2) && fresh(r1.buf) && fresh(r2.buf)
  {
    r1 := new Vector(0);
    r2 := new Vector(0);
  }

  /** hashjoin on an empty table: every pair of rows whose keys share a bucket exactly once; the table ends empty. */
  method HashJoin(ht: HashTable, pos1: Vector, val1: Vector, pos2: Vector, val2: Vector)
    returns (r1: Vector, r2: Vector)
    requires ht.Empty() && pos1.Readable() && val1.Readable() && pos2.Readable() && val2.Readable()
    requires pos1.length <= val1.length && pos2.length <= val2.length
    requires AllHashable(val1.Contents(), pos1.length) && AllHashable(val2.Contents(), pos2.length)
    modifies ht.buckets
    ensures ht.Empty() && fresh(r1) && fresh(r2) && r1.Valid() && r2.Valid()
    ensures var s := Sides(AsInts(pos1.Contents()), val1.Contents(), pos2.Contents(), val2.Contents());
            && IsJoin(r1.Contents(), r2.Contents(), s, SameBucket)
            && Zip(r1.Contents(), r2.Contents()) == PairsOf(s, HashCells(s, |s.pos2|))
  {
    ghost var s := Sides(AsInts(pos1.Contents()), val1.Contents(), pos2.Contents(), val2.Contents());
    r1, r2 := BuildAndProbe(ht, pos1, val1, pos2, val2, s);
    ProbedIsJoin(r1.Contents(), r2.Contents(), s);
    ht.Destroy();
  }

  /** Both loops of hashjoin. */
  method BuildAndProbe(ht: HashTable, pos1: Vector, val1: Vector, pos2: Vector, val2: Vector, ghost s: Sides)
    returns (r1: Vector, r2: Vector)
    requires ht.Empty() && pos1.Readable() && val1.Readable() && pos2.Readable() && val2.Readable() && s.Valid()
    requires s == Sides(AsInts(pos1.Contents()), val1.Contents(), pos2.Contents(), val2.Contents())
    requires AllHashable(s.val1, |s.pos1|) && AllHashable(s.val2, |s.pos2|)
    modifies ht.buckets
    ensures fresh(r1) && fresh(r2)
    ensures ht.Valid() && Results(r1, r2) && Probed(Zipped(r1, r2), s, |s.pos2|)
  {
    r1, r2 := MakeResults();
    BuiltNone(ht, s);
    Build(ht, pos1, val1, s);
    BuiltFilled(ht, s);
    ProbeNone(s);
    ProbeAll(ht, pos2, val2, r1, r2, s);
  }

  // ---------- The order of the results ----------

  /** By rows of the second side; for one of them, the first side from its last row to its first. */
  predicate ProbeBefore(x: RowPair, y: RowPair) {
    x.1 < y.1 || (x.1 == y.1 && x.0 > y.0)
  }

  /** The pairs of the first n rows and rows j .. m - 1 whose keys share a bucket, in probing order. */
  ghost predicate InProbeOrder(s: Sides, cells: seq<RowPair>, n: nat, j: nat, m: nat)
    requires s.Valid() && n <= |s.pos1| && m <= |s.pos2|
  {
    && (forall x, y :: (x, y) in cells <==> 0 <= x < n && j <= y < m && SameBucket(s.val1[x], s.val2[y]))
    && Ascends(cells, ProbeBefore)
  }

  lemma OneCellMore(s: Sides, a: seq<RowPair>, n: nat, m: nat)
    requires s.Valid() && n < |s.pos1| && m < |s.pos2| && InProbeOrder(s, a, n, m, m + 1)
    ensures InProbeOrder(s, CellAt(s, n, m) + a, n + 1, m, m + 1)
  {
    assert forall k :: 0 <= k < |a| ==> (a[k].0, a[k].1) in a;
    AscendsConcat(CellAt(s, n, m), a, ProbeBefore);
  }

  lemma {:induction false} ColumnOrder(s: Sides, n: nat, m: nat)
    requires s.Valid() && n <= |s.pos1| && m < |s.pos2|
    ensures InProbeOrder(s, ColumnCells(s, n, m), n, m, m + 1)
  {
    if n > 0 {
      ColumnOrder(s, n - 1, m);
      OneCellMore(s, ColumnCells(s, n - 1, m), n - 1, m);
    }
  }

  lemma OneColumnMore(s: Sides, a: seq<RowPair>, b: seq<RowPair>, m: nat)
    requires s.Valid() && m < |s.pos2|
    requires InProbeOrder(s, a, |s.pos1|, 0, m) && InProbeOrder(s, b, |s.pos1|, m, m + 1)
    ensures InProbeOrder(s, a + b, |s.pos1|, 0, m + 1)
  {
    assert forall k :: 0 <= k < |a| ==> (a[k].0, a[k].1) in a;
    assert forall k :: 0 <= k < |b| ==> (b[k].0, b[k].1) in b;
    AscendsConcat(a, b, ProbeBefore);
  }

  lemma {:induction false} HashOrderUpTo(s: Sides, m: nat)
    requires s.Valid() && m <= |s.pos2|
    ensures InProbeOrder(s, HashCells(s, m), |s.pos1|, 0, m)
  {
    if m > 0 {
      HashOrderUpTo(s, m - 1);
      ColumnOrder(s, |s.pos1|, m - 1);
      OneColumnMore(s, HashCells(s, m - 1), ColumnCells(s, |s.pos1|, m - 1), m - 1);
    }
  }

  /**
    hashjoin reports exactly the pairs of rows with congruent keys, by rows of the second side and
    backwards through the first: that leaves one result only.
   */
  lemma HashOrder(s: Sides)
    requires s.Valid() && AllHashable(s.val1, |s.pos1|) && AllHashable(s.val2, |s.pos2|)
    ensures forall x, y :: (x, y) in HashCells(s, |s.pos2|) <==>
              0 <= x < |s.pos1| && 0 <= y < |s.pos2| && s.val1[x] % 128000 == s.val2[y] % 128000
    ensures Ascends(HashCells(s, |s.pos2|), ProbeBefore)
  {
    HashOrderUpTo(s, |s.pos2|);
    forall x, y | 0 <= x < |s.pos1| && 0 <= y < |s.pos2|
      ensures SameBucket(s.val1[x], s.val2[y]) <==> s.val1[x] % 128000 == s.val2[y] % 128000
    {
      assert HashableAt(s.val1, x) && HashableAt(s.val2, y);
      SameBucketMeaning(s.val1[x], s.val2[y]);
    }
  }

  // ---------- Against the equi-join ----------

  /** No two different keys of both sides share a bucket. */
  ghost predicate NoCollision(s: Sides)
    requires s.Valid()
  {
    forall r, m :: 0 <= r < |s.pos1| && 0 <= m < |s.pos2| && SameBucket(s.val1[r], s.val2[m]) ==> s.val1[r] == s.val2[m]
  }

  /** hashjoin returns every equi-join pair at least as often as the equi-join. */
  lemma HashJoinContainsEquiJoin(s: Sides, p: Pair)
    requires s.Valid()
    ensures Joined(s, Equal, p) <= Joined(s, SameBucket, p)
  {
    JoinCompare(s, Equal, SameBucket, |s.pos1|, p);
  }

  /** It returns exactly the equi-join if and only if no two different keys collide. */
  lemma HashJoinIsEquiJoin(s: Sides)
    requires s.Valid()
    ensures (forall p: Pair :: Joined(s, SameBucket, p) == Joined(s, Equal, p)) <==> NoCollision(s)
  {
    if NoCollision(s) {
      forall p: Pair ensures Joined(s, SameBucket, p) == Joined(s, Equal, p) {
        JoinCompare(s, Equal, SameBucket, |s.pos1|, p);
        JoinCompare(s, SameBucket, Equal, |s.pos1|, p);
      }
    } else {
      var r, m :| 0 <= r < |s.pos1| && 0 <= m < |s.pos2| && SameBucket(s.val1[r], s.val2[m]) && s.val1[r] != s.val2[m];
      CollisionAdds(s, r, m);
      assert Joined(s, Equal, (s.pos1[r], s.pos2[m])) < Joined(s, SameBucket, (s.pos1[r], s.pos2[m]));
    }
  }

  /** A collision adds a pair that the equi-join lacks. */
  lemma CollisionAdds(s: Sides, r: nat, m: nat)
    requires s.Valid() && r < |s.pos1| && m < |s.pos2|
    requires SameBucket(s.val1[r], s.val2[m]) && s.val1[r] != s.val2[m]
    ensures Joined(s, Equal, (s.pos1[r], s.pos2[m])) < Joined(s, SameBucket, (s.pos1[r], s.pos2[m]))
  {
    var p, n1, n2 := (s.pos1[r], s.pos2[m]), |s.pos1|, |s.pos2|;
    RowStrict(s, r, m, n2, p);
    BlockStrict(s, r, n1, p);
  }

  lemma {:induction false} RowStrict(s: Sides, r: nat, m: nat, m1: nat, p: Pair)
    requires s.Valid() && r < |s.pos1| && m < m1 <= |s.pos2| && p == (s.pos1[r], s.pos2[m])
    requires SameBucket(s.val1[r], s.val2[m]) && s.val1[r] != s.val2[m]
    ensures Row(s, Equal, r, 0, m1, p) < Row(s, SameBucket, r, 0, m1, p)
  {
    if m + 1 < m1 {
      RowStrict(s, r, m, m1 - 1, p);
    } else {
      RowCompare(s, Equal, SameBucket, r, m, p);
    }
  }

  lemma {:induction false} BlockStrict(s: Sides, r: nat, r1: nat, p: Pair)
    requires s.Valid() && r < r1 <= |s.pos1|
    requires Row(s, Equal, r, 0, |s.pos2|, p) < Row(s, SameBucket, r, 0, |s.pos2|, p)
    ensures Block(s, Equal, 0, r1, 0, |s.pos2|, p) < Block(s, SameBucket, 0, r1, 0, |s.pos2|, p)
  {
    if r + 1 < r1 {
      BlockStrict(s, r, r1 - 1, p);
      RowCompare(s, Equal, SameBucket, r1 - 1, |s.pos2|, p);
    } else {
      JoinCompare(s, Equal, SameBucket, r, p);
    }
  }

  /** Two keys one table size apart are joined although they differ. */
  lemma CollisionExample()
    ensures var s := Sides([0], [0], [0], [128000]);
            Joined(s, SameBucket, (0, 0)) == 1 && Joined(s, Equal, (0, 0)) == 0
  {
    var s := Sides([0], [0], [0], [128000]);
    assert Row(s, SameBucket, 0, 0, 0, (0, 0)) == 0 && Row(s, Equal, 0, 0, 0, (0, 0)) == 0;
    assert Row(s, SameBucket, 0, 0, 1, (0, 0)) == 1 && Row(s, Equal, 0, 0, 1, (0, 0)) == 0;
  }

  /** Keys from 0 to 127999 never collide. */
  lemma SmallKeysDoNotCollide(s: Sides)
    requires s.Valid()
    requires forall k :: 0 <= k < |s.pos1| ==> 0 <= s.val1[k] < 128000
    requires forall k :: 0 <= k < |s.pos2| ==> 0 <= s.val2[k] < 128000
    ensures NoCollision(s)
  {
  }

  /** Two vectors of results for one join are reorderings of each other, pair by pair. */
  lemma JoinsAgree(a1: seq<int>, a2: seq<int>, b1: seq<int>, b2: seq<int>, s: Sides)
    requires s.Valid() && NoCollision(s)
    requires IsJoin(a1, a2, s, SameBucket) && IsJoin(b1, b2, s, Equal)
    ensures multiset(Zip(a1, a2)) == multiset(Zip(b1, b2))
  {
    HashJoinIsEquiJoin(s);
    forall p: Pair ensures multiset(Zip(a1, a2))[p] == multiset(Zip(b1, b2))[p] {
      assert JoinedAt(a1, a2, s, SameBucket, p) && JoinedAt(b1, b2, s, Equal, p);
    }
  }
}
