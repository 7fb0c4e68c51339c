/** Sequence helpers: Python's prefix slice, and flattening / summing over a sequence. */
module Seqs {

  function Min(a: int, b: int): int
  {
    if a <= b then a else b
  }

  /** Python's slice `s[:n]` for a non-negative `n`: the first `n` elements,
      or all of `s` when it is shorter. */
  function Prefix<T>(s: seq<T>, n: nat): (r: seq<T>)
    ensures r <= s
    ensures |r| == Min(n, |s|)
  {
    if |s| <= n then s else s[..n]
  }

  /** All elements but the last. */
  function Init<T>(s: seq<T>): seq<T>
    requires |s| > 0
  {
    s[..|s| - 1]
  }

  function Last<T>(s: seq<T>): T
    requires |s| > 0
  {
    s[|s| - 1]
  }

  /** The concatenation, in order, of `f(x)` for every `x` of `xs`. */
  function Flatten<T, U>(xs: seq<T>, f: T -> seq<U>): seq<U>
  {
    if |xs| == 0 then [] else f(xs[0]) + Flatten(xs[1..], f)
  }

  /** The sum of `f(x)` over every `x` of `xs`. */
  function Sum<T>(xs: seq<T>, f: T -> nat): nat
  {
    if |xs| == 0 then 0 else f(xs[0]) + Sum(xs[1..], f)
  }

  lemma {:induction false} FlattenAppend<T, U>(xs: seq<T>, ys: seq<T>, f: T -> seq<U>)
    ensures Flatten(xs + ys, f) == Flatten(xs, f) + Flatten(ys, f)
  {
    if |xs| == 0 {
      assert xs + ys == ys;
    } else {
      assert (xs + ys)[0] == xs[0];
      assert (xs + ys)[1..] == xs[1..] + ys;
      FlattenAppend(xs[1..], ys, f);
    }
  }

  /** Flattening ends with the image of the last element. */
  lemma FlattenInit<T, U>(xs: seq<T>, f: T -> seq<U>)
    requires |xs| > 0
    ensures Flatten(xs, f) == Flatten(Init(xs), f) + f(Last(xs))
  {
    var init, last := Init(xs), Last(xs);
    assert xs == init + [last];
    FlattenAppend(init, [last], f);
    assert [last][1..] == [];
  }

  lemma {:induction false} SumAppend<T>(xs: seq<T>, ys: seq<T>, f: T -> nat)
    ensures Sum(xs + ys, f) == Sum(xs, f) + Sum(ys, f)
  {
    if |xs| == 0 {
      assert xs + ys == ys;
    } else {
      assert (xs + ys)[0] == xs[0];
      assert (xs + ys)[1..] == xs[1..] + ys;
      SumAppend(xs[1..], ys, f);
    }
  }

  /** When `g` measures the length of `f`, the flattening is as long as the sum of `g`. */
  lemma {:induction false} FlattenLength<T, U>(xs: seq<T>, f: T -> seq<U>, g: T -> nat)
    requires forall k :: 0 <= k < |xs| ==> g(xs[k]) == |f(xs[k])|
    ensures |Flatten(xs, f)| == Sum(xs, g)
  {
    if |xs| != 0 {
      assert g(xs[0]) == |f(xs[0])|;
      FlattenLength(xs[1..], f, g);
    }
  }

  /** Element `j` of `f(xs[i])` sits in the flattening right after the images of `xs[..i]`. */
  lemma FlattenAt<T, U>(xs: seq<T>, f: T -> seq<U>, i: nat, j: nat)
    requires i < |xs| && j < |f(xs[i])|
    ensures |Flatten(xs[..i], f)| + j < |Flatten(xs, f)|
    ensures Flatten(xs, f)[|Flatten(xs[..i], f)| + j] == f(xs[i])[j]
  {
    assert xs == xs[..i] + ([xs[i]] + xs[i + 1..]);
    FlattenAppend(xs[..i], [xs[i]] + xs[i + 1..], f);
    FlattenAppend([xs[i]], xs[i + 1..], f);
    assert Flatten([xs[i]], f) == f(xs[i]) + Flatten([xs[i]][1..], f);
  }
}
