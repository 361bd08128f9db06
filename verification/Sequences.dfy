/** Sequences mapped to sequences, and what survives reordering. */
module Sequences {

  function FlatMap<T, U>(f: T -> seq<U>, xs: seq<T>): seq<U> {
    if xs == [] then [] else f(xs[0]) + FlatMap(f, xs[1..])
  }

  lemma {:induction false} FlatMapAppend<T, U>(f: T -> seq<U>, xs: seq<T>, ys: seq<T>)
    ensures FlatMap(f, xs + ys) == FlatMap(f, xs) + FlatMap(f, ys)
  {
    if xs == [] {
      assert xs + ys == ys;
    } else {
      FlatMapAppend(f, xs[1..], ys);
      assert (xs + ys)[1..] == xs[1..] + ys;
      Associative(f(xs[0]), FlatMap(f, xs[1..]), FlatMap(f, ys));
    }
  }

  lemma Associative<T>(a: seq<T>, b: seq<T>, c: seq<T>)
    ensures (a + b) + c == a + (b + c)
  {
  }

  lemma FlatMapSingle<T, U>(f: T -> seq<U>, x: T)
    ensures FlatMap(f, [x]) == f(x)
  {
    assert [x][1..] == [];
    assert FlatMap(f, [x]) == f(x) + FlatMap(f, [x][1..]);
    assert f(x) + [] == f(x);
  }

  lemma FlatMapSnoc<T, U>(f: T -> seq<U>, xs: seq<T>, i: nat)
    requires i < |xs|
    ensures FlatMap(f, xs[..i + 1]) == FlatMap(f, xs[..i]) + f(xs[i])
  {
    assert xs[..i + 1] == xs[..i] + [xs[i]];
    FlatMapAppend(f, xs[..i], [xs[i]]);
    assert [xs[i]][1..] == [];
  }

  lemma {:induction false} FlatMapContains<T, U>(f: T -> seq<U>, xs: seq<T>, x: T, y: U)
    requires x in xs && y in f(x)
    ensures y in FlatMap(f, xs)
  {
    if x != xs[0] {
      FlatMapContains(f, xs[1..], x, y);
    }
  }

  /** Reordering the input only reorders the output. */
  lemma {:induction false} FlatMapPermutes<T, U>(f: T -> seq<U>, xs: seq<T>, ys: seq<T>)
    requires multiset(xs) == multiset(ys)
    ensures multiset(FlatMap(f, xs)) == multiset(FlatMap(f, ys))
    decreases |xs|
  {
    hide FlatMap;
    if xs == [] {
      NothingElse(ys);
    } else {
      var i := IndexOfFirst(xs, ys);
      FlatMapPermutes(f, xs[1..], ys[..i] + ys[i + 1..]);
      FlatMapRemoveAt(f, xs, 0);
      FlatMapRemoveAt(f, ys, i);
      assert xs[..0] + xs[1..] == xs[1..];
    }
  }

  lemma NothingElse<T>(ys: seq<T>)
    requires multiset([]) == multiset(ys)
    ensures ys == []
  {
    assert |multiset(ys)| == |ys|;
  }

  /** Where the first element of `xs` stands in a permutation of it. */
  lemma IndexOfFirst<T>(xs: seq<T>, ys: seq<T>) returns (i: nat)
    requires xs != [] && multiset(xs) == multiset(ys)
    ensures i < |ys| && ys[i] == xs[0]
    ensures multiset(xs[1..]) == multiset(ys[..i] + ys[i + 1..])
  {
    RemoveFirst(xs);
    i := IndexIn(ys, xs[0]);
    RemoveAt(ys, i);
  }

  lemma IndexIn<T>(ys: seq<T>, x: T) returns (i: nat)
    requires x in multiset(ys)
    ensures i < |ys| && ys[i] == x
  {
    i :| 0 <= i < |ys| && ys[i] == x;
  }

  lemma RemoveFirst<T>(xs: seq<T>)
    requires xs != []
    ensures xs[0] in multiset(xs) && multiset(xs[1..]) == multiset(xs) - multiset{xs[0]}
  {
    assert xs == [xs[0]] + xs[1..];
    assert multiset(xs) == multiset{xs[0]} + multiset(xs[1..]);
  }

  lemma RemoveAt<T>(ys: seq<T>, i: nat)
    requires i < |ys|
    ensures multiset(ys[..i] + ys[i + 1..]) == multiset(ys) - multiset{ys[i]}
  {
    SplitAt(ys, i);
    assert multiset(ys) == multiset(ys[..i]) + (multiset{ys[i]} + multiset(ys[i + 1..]));
  }

  lemma SplitAt<T>(ys: seq<T>, i: nat)
    requires i < |ys|
    ensures ys == ys[..i] + ([ys[i]] + ys[i + 1..])
  {
  }

  /** What one element contributes. */
  lemma FlatMapRemoveAt<T, U>(f: T -> seq<U>, ys: seq<T>, i: nat)
    requires i < |ys|
    ensures multiset(FlatMap(f, ys)) == multiset(f(ys[i])) + multiset(FlatMap(f, ys[..i] + ys[i + 1..]))
  {
    hide FlatMap;
    SplitAt(ys, i);
    FlatMapAppend(f, ys[..i], [ys[i]] + ys[i + 1..]);
    FlatMapAppend(f, [ys[i]], ys[i + 1..]);
    FlatMapSingle(f, ys[i]);
    FlatMapAppend(f, ys[..i], ys[i + 1..]);
  }

  /** The elements satisfying `p`, in order. */
  function Filter<T>(p: T -> bool, xs: seq<T>): seq<T> {
    if xs == [] then [] else (if p(xs[0]) then [xs[0]] else []) + Filter(p, xs[1..])
  }

  lemma {:induction false} FilterAppend<T>(p: T -> bool, xs: seq<T>, ys: seq<T>)
    ensures Filter(p, xs + ys) == Filter(p, xs) + Filter(p, ys)
  {
    if xs == [] {
      assert xs + ys == ys;
    } else {
      FilterAppend(p, xs[1..], ys);
      assert (xs + ys)[1..] == xs[1..] + ys;
      Associative(if p(xs[0]) then [xs[0]] else [], Filter(p, xs[1..]), Filter(p, ys));
    }
  }

  lemma FilterSingle<T>(p: T -> bool, x: T)
    ensures Filter(p, [x]) == if p(x) then [x] else []
  {
    assert [x][1..] == [];
    assert Filter(p, [x]) == (if p(x) then [x] else []) + Filter(p, [x][1..]);
  }

  lemma {:induction false} FilterTwice<T>(p: T -> bool, xs: seq<T>)
    ensures Filter(p, Filter(p, xs)) == Filter(p, xs)
  {
    if xs != [] {
      var rest := Filter(p, xs[1..]);
      FilterTwice(p, xs[1..]);
      assert [] + rest == rest;
      assert ([xs[0]] + rest)[1..] == rest;
    }
  }
}
