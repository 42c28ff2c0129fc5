/** Sequences up to reordering. */
module Bags {

  function FlatMap<X, Y>(s: seq<X>, f: X -> seq<Y>): seq<Y> {
    if s == [] then [] else f(s[0]) + FlatMap(s[1..], f)
  }

  lemma {:induction false} FlatMapConcat<X, Y>(a: seq<X>, b: seq<X>, f: X -> seq<Y>)
    ensures FlatMap(a + b, f) == FlatMap(a, f) + FlatMap(b, f)
  {
    if a == [] {
      assert a + b == b;
    } else {
      assert (a + b)[1..] == a[1..] + b;
      FlatMapConcat(a[1..], b, f);
    }
  }

  /** A reordering of `s` contains its head somewhere; the rest is a reordering of the tail. */
  lemma TakeHead<X>(s: seq<X>, t: seq<X>) returns (a: seq<X>, b: seq<X>)
    requires s != [] && multiset(s) == multiset(t)
    ensures t == a + [s[0]] + b && multiset(s[1..]) == multiset(a + b)
  {
    var x := s[0];
    assert s == [x] + s[1..];
    assert x in multiset(t);
    var j :| 0 <= j < |t| && t[j] == x;
    a, b := t[..j], t[j + 1..];
    assert t == a + [x] + b;
    assert multiset(s[1..]) == multiset(s) - multiset{x};
    assert multiset(a + b) == multiset(t) - multiset{x};
  }

  /** Reordering the input reorders the output. */
  lemma {:induction false} FlatMapBag<X, Y>(s: seq<X>, t: seq<X>, f: X -> seq<Y>)
    requires multiset(s) == multiset(t)
    ensures multiset(FlatMap(s, f)) == multiset(FlatMap(t, f))
  {
    if s == [] {
      assert |multiset(t)| == 0;
    } else {
      var a, b := TakeHead(s, t);
      FlatMapBag(s[1..], a + b, f);
      FlatMapConcat(a + [s[0]], b, f);
      FlatMapConcat(a, [s[0]], f);
      FlatMapConcat(a, b, f);
      assert [s[0]][1..] == [] && FlatMap([s[0]], f) == f(s[0]);
      var fa, fx, fb := FlatMap(a, f), f(s[0]), FlatMap(b, f);
      assert multiset(fa + fx + fb) == multiset(fx + (fa + fb));
    }
  }
}
