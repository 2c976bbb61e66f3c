/** Generic operations on sequences used by the parsers: mapping, and
    keeping the defined results of a partial map in order. */
module Sequences {
  import opened Wrappers

  /** `g` applied to every element. */
  function Map<T, U>(g: T -> U, xs: seq<T>): (ys: seq<U>)
    ensures |ys| == |xs|
    ensures forall k | 0 <= k < |xs| :: ys[k] == g(xs[k])
  {
    seq(|xs|, k requires 0 <= k < |xs| => g(xs[k]))
  }

  /** The defined results of `f` over `xs`, in order. */
  function FilterMap<T, U>(f: T -> Option<U>, xs: seq<T>): seq<U>
    decreases |xs|
  {
    if xs == [] then []
    else
      var init := FilterMap(f, xs[..|xs| - 1]);
      match f(xs[|xs| - 1])
      case Some(y) => init + [y]
      case None => init
  }

  /** Every result comes from an element, and there are no more results than
      elements. */
  lemma {:induction false} FilterMapFrom<T, U>(f: T -> Option<U>, xs: seq<T>)
    ensures forall y | y in FilterMap(f, xs) :: exists x | x in xs :: f(x) == Some(y)
    ensures |FilterMap(f, xs)| <= |xs|
    decreases |xs|
  {
    if xs != [] {
      var init := xs[..|xs| - 1];
      FilterMapFrom(f, init);
      assert forall x | x in init :: x in xs;
      assert xs[|xs| - 1] in xs;
    }
  }

  /** Results are produced element by element. */
  lemma {:induction false} FilterMapAppend<T, U>(f: T -> Option<U>, a: seq<T>, b: seq<T>)
    ensures FilterMap(f, a + b) == FilterMap(f, a) + FilterMap(f, b)
    decreases |b|
  {
    if b == [] {
      assert a + b == a;
    } else {
      var init := b[..|b| - 1];
      FilterMapAppend(f, a, init);
      assert (a + b)[..|a + b| - 1] == a + init;
      assert (a + b)[|a + b| - 1] == b[|b| - 1];
    }
  }

  /** Filtering through a left inverse of `g` recovers what `g` was mapped over. */
  lemma {:induction false} FilterMapInverse<T, U>(f: T -> Option<U>, g: U -> T, ys: seq<U>)
    requires forall y :: f(g(y)) == Some(y)
    ensures FilterMap(f, Map(g, ys)) == ys
    decreases |ys|
  {
    if ys != [] {
      var init := ys[..|ys| - 1];
      FilterMapInverse(f, g, init);
      assert Map(g, ys)[..|ys| - 1] == Map(g, init);
    }
  }
}
