/** Generic sequence helpers: mapping and order-preserving filtering. */
module Seqs {

  /** `f` applied to every element of `xs`, in order. */
  function Map<T, U>(f: T -> U, xs: seq<T>): (r: seq<U>)
    ensures |r| == |xs|
  {
    seq(|xs|, i requires 0 <= i < |xs| => f(xs[i]))
  }

  lemma MapPair<T, U>(f: T -> U, x: T, y: T)
    ensures Map(f, [x, y]) == [f(x), f(y)]
  {
  }

  lemma MapConcat<T, U>(f: T -> U, a: seq<T>, b: seq<T>)
    ensures Map(f, a + b) == Map(f, a) + Map(f, b)
  {
  }

  /** The sequences of `xss` one after another. */
  function Flatten<T>(xss: seq<seq<T>>): seq<T>
    decreases |xss|
  {
    if xss == [] then [] else xss[0] + Flatten(xss[1..])
  }

  lemma {:induction false} FlattenConcat<T>(a: seq<seq<T>>, b: seq<seq<T>>)
    ensures Flatten(a + b) == Flatten(a) + Flatten(b)
    decreases |a|
  {
    if a == [] {
      assert a + b == b;
    } else {
      assert (a + b)[0] == a[0];
      assert (a + b)[1..] == a[1..] + b;
      FlattenConcat(a[1..], b);
    }
  }

  /** An element of a flattened sequence comes from one of its pieces. */
  lemma {:induction false} FlattenMember<T>(xss: seq<seq<T>>, x: T)
    requires x in Flatten(xss)
    ensures exists i :: 0 <= i < |xss| && x in xss[i]
    decreases |xss|
  {
    if x !in xss[0] {
      FlattenMember(xss[1..], x);
      var i :| 0 <= i < |xss[1..]| && x in xss[1..][i];
      assert xss[i + 1] == xss[1..][i];
    }
  }

  /** The elements of `xs` that satisfy `p`, in their original order
      (a Python list comprehension with an `if` clause). */
  function Filter<T(==)>(p: T -> bool, xs: seq<T>): (r: seq<T>)
    ensures |r| <= |xs|
    ensures forall i :: 0 <= i < |r| ==> p(r[i])
    ensures forall i :: 0 <= i < |r| ==> r[i] in xs
    ensures forall i :: 0 <= i < |xs| && p(xs[i]) ==> xs[i] in r
  {
    if xs == [] then [] else (if p(xs[0]) then [xs[0]] else []) + Filter(p, xs[1..])
  }

  /** Filtering distributes over concatenation. */
  lemma {:induction false} FilterConcat<T>(p: T -> bool, a: seq<T>, b: seq<T>)
    ensures Filter(p, a + b) == Filter(p, a) + Filter(p, b)
  {
    if a == [] {
      assert a + b == b;
    } else {
      assert (a + b)[0] == a[0];
      assert (a + b)[1..] == a[1..] + b;
      FilterConcat(p, a[1..], b);
    }
  }

  /** Filtering by a stronger predicate after a weaker one is the same as
      filtering by the stronger predicate alone. */
  lemma {:induction false} FilterFilter<T>(p: T -> bool, q: T -> bool, xs: seq<T>)
    requires forall x :: p(x) ==> q(x)
    ensures Filter(p, Filter(q, xs)) == Filter(p, xs)
  {
    if xs != [] {
      FilterFilter(p, q, xs[1..]);
      var head := if q(xs[0]) then [xs[0]] else [];
      FilterConcat(p, head, Filter(q, xs[1..]));
      if q(xs[0]) {
        assert Filter(p, head) == (if p(xs[0]) then [xs[0]] else []) + Filter(p, head[1..]);
        assert head[1..] == [];
      } else {
        assert Filter(p, head) == [];
      }
    }
  }

  lemma FilterCons<T>(p: T -> bool, x: T, xs: seq<T>)
    ensures Filter(p, [x] + xs) == (if p(x) then [x] else []) + Filter(p, xs)
  {
    assert ([x] + xs)[1..] == xs;
  }

  /** Filtering a two-element sequence. */
  lemma Filter2<T>(p: T -> bool, a: T, b: T)
    ensures Filter(p, [a, b]) == (if p(a) then [a] else []) + (if p(b) then [b] else [])
  {
    FilterCons(p, b, []);
    FilterCons(p, a, [b]);
    assert [b] + [] == [b];
    assert [a] + [b] == [a, b];
  }

  /** Nothing survives a filter that every element fails. */
  lemma {:induction false} FilterNone<T>(p: T -> bool, xs: seq<T>)
    requires forall i :: 0 <= i < |xs| ==> !p(xs[i])
    ensures Filter(p, xs) == []
  {
    if xs != [] {
      FilterNone(p, xs[1..]);
    }
  }

  /** The first element a filter keeps is the first element satisfying `p`. */
  lemma {:induction false} FilterFirst<T>(p: T -> bool, xs: seq<T>)
    requires Filter(p, xs) != []
    ensures exists k :: 0 <= k < |xs| && xs[k] == Filter(p, xs)[0] && forall j :: 0 <= j < k ==> !p(xs[j])
  {
    if !p(xs[0]) {
      assert Filter(p, xs) == [] + Filter(p, xs[1..]);
      FilterFirst(p, xs[1..]);
      var k :| 0 <= k < |xs[1..]| && xs[1..][k] == Filter(p, xs[1..])[0] && forall j :: 0 <= j < k ==> !p(xs[1..][j]);
      assert forall j :: 1 <= j < k + 1 ==> xs[j] == xs[1..][j - 1];
      assert xs[k + 1] == Filter(p, xs)[0];
    } else {
      assert xs[0] == Filter(p, xs)[0];
    }
  }
}
