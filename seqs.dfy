/** The two list-building loops the extractors use, stated once for any
    per-element function: keeping the present results of a partial map, and
    concatenating the lists each element yields. */
module Seqs {
  import opened Optional

  /** Concatenation is associative. */
  lemma AppendAssoc<T>(a: seq<T>, b: seq<T>, c: seq<T>)
    ensures a + (b + c) == (a + b) + c
  {
  }

  /** The first position from `p` up to `n` where `f` gives a value, with
      that value. */
  function FirstSomeFrom<X>(f: nat -> Option<X>, p: nat, n: nat): (r: Option<(nat, X)>)
    requires p <= n
    ensures r.Some? ==> p <= r.value.0 <= n && f(r.value.0) == Some(r.value.1)
    decreases n - p
  {
    match f(p)
    case Some(x) => Some((p, x))
    case None => if p == n then None else FirstSomeFrom(f, p + 1, n)
  }

  /** Nothing is found before the position reported, and nothing is
      reported exactly when `f` gives no value anywhere in the range. */
  lemma {:induction false} FirstSomeFromSpec<X>(f: nat -> Option<X>, p: nat, n: nat)
    requires p <= n
    ensures FirstSomeFrom(f, p, n).Some? ==> forall q :: p <= q < FirstSomeFrom(f, p, n).value.0 ==> f(q).None?
    ensures FirstSomeFrom(f, p, n).None? <==> forall q :: p <= q <= n ==> f(q).None?
    decreases n - p
  {
    if f(p).None? && p < n {
      FirstSomeFromSpec(f, p + 1, n);
    }
  }

  /** Applies `f` to every element, keeping the order. */
  function Map<T, U>(f: T -> U, xs: seq<T>): (ys: seq<U>)
    ensures |ys| == |xs|
  {
    if xs == [] then [] else Map(f, xs[..|xs| - 1]) + [f(xs[|xs| - 1])]
  }

  /** The i-th element of the mapped sequence is `f` of the i-th element. */
  lemma {:induction false} MapIndex<T, U>(f: T -> U, xs: seq<T>)
    ensures forall i :: 0 <= i < |xs| ==> Map(f, xs)[i] == f(xs[i])
  {
    if xs != [] {
      var init := xs[..|xs| - 1];
      MapIndex(f, init);
      assert forall i :: 0 <= i < |init| ==> init[i] == xs[i];
    }
  }

  /** The value held, as a list of zero or one element. */
  function Present<U>(o: Option<U>): (ys: seq<U>)
    ensures |ys| <= 1
  {
    match o
    case None => []
    case Some(y) => [y]
  }

  /** `[y for x in xs if (y := f(x)) is not None]`, in the order of `xs`. */
  function Collect<T, U>(f: T -> Option<U>, xs: seq<T>): (ys: seq<U>)
    ensures |ys| <= |xs|
  {
    if xs == [] then [] else Collect(f, xs[..|xs| - 1]) + Present(f(xs[|xs| - 1]))
  }

  /** One more element adds its result, if any, at the end. */
  lemma CollectStep<T, U>(f: T -> Option<U>, xs: seq<T>, i: nat)
    requires i < |xs|
    ensures Collect(f, xs[..i + 1]) == Collect(f, xs[..i]) + Present(f(xs[i]))
  {
    assert xs[..i + 1][..i] == xs[..i];
  }

  /** Collecting distributes over concatenation: elements are handled one
      at a time and their results keep their order. */
  lemma {:induction false} CollectAppend<T, U>(f: T -> Option<U>, a: seq<T>, b: seq<T>)
    ensures Collect(f, a + b) == Collect(f, a) + Collect(f, b)
    decreases |b|
  {
    if b == [] {
      assert a + b == a;
    } else {
      var b' := b[..|b| - 1];
      assert (a + b)[..|a + b| - 1] == a + b';
      assert (a + b)[|a + b| - 1] == b[|b| - 1];
      CollectAppend(f, a, b');
    }
  }

  /** A value is collected exactly when some element yields it. */
  lemma {:induction false} CollectMembers<T, U>(f: T -> Option<U>, xs: seq<T>, y: U)
    ensures y in Collect(f, xs) <==> exists i :: 0 <= i < |xs| && f(xs[i]) == Some(y)
  {
    if xs != [] {
      var n := |xs| - 1;
      var init := xs[..n];
      CollectMembers(f, init, y);
      if y in Collect(f, xs) {
        if y in Collect(f, init) {
          var i :| 0 <= i < n && f(init[i]) == Some(y);
          assert init[i] == xs[i];
        }
      } else {
        forall i | 0 <= i < |xs| ensures f(xs[i]) != Some(y) {
          if i < n {
            assert init[i] == xs[i];
          }
        }
      }
    }
  }

  /** The concatenation of `f(x)` for every `x` of `xs`, in order. */
  function FlatMap<T, U>(f: T -> seq<U>, xs: seq<T>): seq<U> {
    if xs == [] then [] else FlatMap(f, xs[..|xs| - 1]) + f(xs[|xs| - 1])
  }

  /** One more element appends what it yields. */
  lemma FlatMapStep<T, U>(f: T -> seq<U>, xs: seq<T>, i: nat)
    requires i < |xs|
    ensures FlatMap(f, xs[..i + 1]) == FlatMap(f, xs[..i]) + f(xs[i])
  {
    assert xs[..i + 1][..i] == xs[..i];
  }

  /** A value is in the concatenation exactly when some element yields it. */
  lemma {:induction false} FlatMapMembers<T, U>(f: T -> seq<U>, xs: seq<T>, y: U)
    ensures y in FlatMap(f, xs) <==> exists i :: 0 <= i < |xs| && y in f(xs[i])
  {
    if xs != [] {
      var n := |xs| - 1;
      var init := xs[..n];
      FlatMapMembers(f, init, y);
      if y in FlatMap(f, xs) {
        if y in FlatMap(f, init) {
          var i :| 0 <= i < n && y in f(init[i]);
          assert init[i] == xs[i];
        }
      } else {
        forall i | 0 <= i < |xs| ensures y !in f(xs[i]) {
          if i < n {
            assert init[i] == xs[i];
          }
        }
      }
    }
  }

  /** The concatenation is empty exactly when every element yields nothing. */
  lemma {:induction false} FlatMapEmpty<T, U>(f: T -> seq<U>, xs: seq<T>)
    ensures FlatMap(f, xs) == [] <==> forall i :: 0 <= i < |xs| ==> f(xs[i]) == []
  {
    if xs != [] {
      var n := |xs| - 1;
      FlatMapEmpty(f, xs[..n]);
      assert forall i :: 0 <= i < n ==> xs[..n][i] == xs[i];
    }
  }
}
