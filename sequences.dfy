/** Sequence facts shared by the extraction rules: subsequences and concatenating per-element results. */
module Sequences {

  /** `a` is `b` with some elements left out and the order kept. */
  predicate IsSubsequence<T(==)>(a: seq<T>, b: seq<T>) {
    if a == [] then true
    else if b == [] then false
    else if a[|a| - 1] == b[|b| - 1] then IsSubsequence(a[..|a| - 1], b[..|b| - 1])
    else IsSubsequence(a, b[..|b| - 1])
  }

  /** Leaving out the last element of a subsequence gives a subsequence. */
  lemma {:induction false} SubsequenceDropLast<T>(a: seq<T>, b: seq<T>)
    requires a != [] && IsSubsequence(a, b)
    ensures IsSubsequence(a[..|a| - 1], b)
    decreases |b|, 1
  {
    var a', b' := a[..|a| - 1], b[..|b| - 1];
    if a[|a| - 1] == b[|b| - 1] {
      if a' != [] { SubsequenceExtend(a', b', b[|b| - 1]); }
    } else {
      SubsequenceDropLast(a, b');
      if a' != [] { SubsequenceExtend(a', b', b[|b| - 1]); }
    }
  }

  /** A subsequence of `b` is a subsequence of `b + [x]`. */
  lemma {:induction false} SubsequenceExtend<T>(a: seq<T>, b: seq<T>, x: T)
    requires IsSubsequence(a, b)
    ensures IsSubsequence(a, b + [x])
    decreases |b| + 1, 0
  {
    assert (b + [x])[..|b|] == b;
    if a != [] && a[|a| - 1] == x {
      SubsequenceDropLast(a, b);
    }
  }

  /** `g` applied to each element of `xs`. */
  function Map<A, B>(g: A -> B, xs: seq<A>): (ys: seq<B>)
    ensures |ys| == |xs|
    ensures forall i :: 0 <= i < |xs| ==> ys[i] == g(xs[i])
  {
    seq(|xs|, i requires 0 <= i < |xs| => g(xs[i]))
  }

  /** The results of `f` on each element of `xs`, concatenated in order. */
  function Concat<A, B>(f: A -> seq<B>, xs: seq<A>): seq<B> {
    if xs == [] then [] else Concat(f, xs[..|xs| - 1]) + f(xs[|xs| - 1])
  }

  /** Each element is handled on its own: the result for `a + b` is the result for `a`, then for `b`. */
  lemma {:induction false} ConcatAppend<A, B>(f: A -> seq<B>, a: seq<A>, b: seq<A>)
    ensures Concat(f, a + b) == Concat(f, a) + Concat(f, b)
  {
    if b == [] {
      assert a + b == a;
    } else {
      var init := b[..|b| - 1];
      assert (a + b)[..|a + b| - 1] == a + init;
      assert (a + b)[|a + b| - 1] == b[|b| - 1];
      ConcatAppend(f, a, init);
    }
  }

  lemma ConcatSkip<A, B>(f: A -> seq<B>, a: seq<A>, x: A, c: seq<A>)
    requires f(x) == []
    ensures Concat(f, a + [x] + c) == Concat(f, a) + Concat(f, c)
  {
    ConcatAppend(f, a + [x], c);
    ConcatAppend(f, a, [x]);
    ConcatSingle(f, x);
    assert Concat(f, a + [x]) == Concat(f, a);
  }

  /** Extending the prefix handled so far by one element adds that element's result. */
  lemma ConcatPrefix<A, B>(f: A -> seq<B>, xs: seq<A>, i: nat)
    requires i < |xs|
    ensures Concat(f, xs[..i + 1]) == Concat(f, xs[..i]) + f(xs[i])
  {
    assert xs[..i + 1][..i] == xs[..i];
  }

  lemma ConcatSingle<A, B>(f: A -> seq<B>, x: A)
    ensures Concat(f, [x]) == f(x)
  {
    assert [x][..0] == [];
  }

  /**
   * When `f` keeps or drops each element's image under `g`, the result is
   * the subsequence of the images that were kept.
   */
  lemma {:induction false} ConcatIsSubsequence<A, B>(f: A -> seq<B>, g: A -> B, xs: seq<A>)
    requires forall x :: f(x) == [] || f(x) == [g(x)]
    ensures IsSubsequence(Concat(f, xs), Map(g, xs))
  {
    if xs != [] {
      var init, last := xs[..|xs| - 1], xs[|xs| - 1];
      ConcatIsSubsequence(f, g, init);
      var images := Map(g, xs);
      assert images[..|xs| - 1] == Map(g, init);
      var r := Concat(f, xs);
      if f(last) != [] {
        assert r[..|r| - 1] == Concat(f, init);
        assert r[|r| - 1] == images[|xs| - 1];
      } else {
        assert r == Concat(f, init);
        assert images == images[..|xs| - 1] + [images[|xs| - 1]];
        SubsequenceExtend(r, images[..|xs| - 1], images[|xs| - 1]);
      }
    }
  }

  /** Every element of the result is the one result of some element. */
  lemma {:induction false} ConcatSound<A, B>(f: A -> seq<B>, xs: seq<A>)
    requires forall x :: |f(x)| <= 1
    ensures forall y :: y in Concat(f, xs) ==> exists i :: 0 <= i < |xs| && f(xs[i]) == [y]
  {
    if xs != [] {
      var init := xs[..|xs| - 1];
      ConcatSound(f, init);
      forall y | y in Concat(f, xs) ensures exists i :: 0 <= i < |xs| && f(xs[i]) == [y] {
        if y in Concat(f, init) {
          var i :| 0 <= i < |init| && f(init[i]) == [y];
          assert xs[i] == init[i];
        } else {
          assert f(xs[|xs| - 1]) == [y];
        }
      }
    }
  }

  /** Every element's results are in the result. */
  lemma {:induction false} ConcatComplete<A, B>(f: A -> seq<B>, xs: seq<A>)
    ensures forall i, y :: 0 <= i < |xs| && y in f(xs[i]) ==> y in Concat(f, xs)
  {
    if xs != [] {
      var init := xs[..|xs| - 1];
      ConcatComplete(f, init);
      forall i, y | 0 <= i < |xs| && y in f(xs[i]) ensures y in Concat(f, xs) {
        if i < |init| { assert xs[i] == init[i]; }
      }
    }
  }

  /** The positions of the elements of `xs` whose result under `f` is exactly `[y]`. */
  ghost function HitIndices<A, B>(f: A -> seq<B>, xs: seq<A>, y: B): set<nat>
  {
    set i: nat | i < |xs| && f(xs[i]) == [y]
  }

  lemma HitIndicesSnoc<A, B>(f: A -> seq<B>, xs: seq<A>, x: A, y: B)
    ensures |HitIndices(f, xs + [x], y)| == |HitIndices(f, xs, y)| + (if f(x) == [y] then 1 else 0)
  {
    var ys := xs + [x];
    assert forall i :: 0 <= i < |xs| ==> ys[i] == xs[i];
    assert ys[|xs|] == x;
    assert |xs| !in HitIndices(f, xs, y);
    assert HitIndices(f, ys, y) == HitIndices(f, xs, y) + (if f(x) == [y] then {|xs|} else {});
  }

  /**
   * When `f` gives each element at most one result, `y` occurs in the
   * result as many times as there are elements whose result is `[y]`.
   */
  lemma {:induction false} ConcatCount<A, B>(f: A -> seq<B>, xs: seq<A>, y: B)
    requires forall x :: |f(x)| <= 1
    ensures multiset(Concat(f, xs))[y] == |HitIndices(f, xs, y)|
  {
    if xs == [] {
      assert HitIndices(f, xs, y) == {};
    } else {
      var n := |xs| - 1;
      var init, last := xs[..n], xs[n];
      ConcatCount(f, init, y);
      assert xs == init + [last];
      HitIndicesSnoc(f, init, last, y);
      assert multiset(Concat(f, xs)) == multiset(Concat(f, init)) + multiset(f(last));
      if f(last) != [y] && f(last) != [] {
        assert f(last) == [f(last)[0]];
      }
    }
  }
}
