/** Left-to-right sums of an integer measure over a sequence, as Python's
    `sum(...)` and the `+=` accumulation loops compute them. */
module Sums {

  /** The sum of `f` over `xs`, accumulated from the first element on. */
  function Sum<T>(xs: seq<T>, f: T -> int): int {
    if |xs| == 0 then 0 else Sum(xs[..|xs| - 1], f) + f(xs[|xs| - 1])
  }

  /** Sums split over concatenation. */
  lemma {:induction false} SumConcat<T>(a: seq<T>, b: seq<T>, f: T -> int)
    ensures Sum(a + b, f) == Sum(a, f) + Sum(b, f)
    decreases |b|
  {
    if |b| > 0 {
      var b' := b[..|b| - 1];
      assert (a + b)[..|a + b| - 1] == a + b';
      SumConcat(a, b', f);
    } else {
      assert a + b == a;
    }
  }

  /** Replacing one element changes the sum by the difference of the two. */
  lemma {:induction false} SumUpdate<T>(xs: seq<T>, i: nat, x: T, f: T -> int)
    requires i < |xs|
    ensures Sum(xs[i := x], f) == Sum(xs, f) - f(xs[i]) + f(x)
  {
    var a, c := xs[..i], xs[i + 1..];
    assert xs == a + ([xs[i]] + c);
    assert xs[i := x] == a + ([x] + c);
    SumConcat(a, [xs[i]] + c, f);
    SumConcat(a, [x] + c, f);
    SumConcat([xs[i]], c, f);
    SumConcat([x], c, f);
    assert Sum([xs[i]], f) == f(xs[i]) by {
      assert [xs[i]][..0] == [];
    }
    assert Sum([x], f) == f(x) by {
      assert [x][..0] == [];
    }
  }

  /** Dropping one element takes its measure off the sum. */
  lemma {:induction false} SumDelete<T>(xs: seq<T>, i: nat, f: T -> int)
    requires i < |xs|
    ensures Sum(xs[..i] + xs[i + 1..], f) == Sum(xs, f) - f(xs[i])
  {
    var a, c := xs[..i], xs[i + 1..];
    assert xs[i..] == [xs[i]] + c;
    assert xs == a + xs[i..];
    SumConcat(a, [xs[i]] + c, f);
    SumConcat([xs[i]], c, f);
    SumConcat(a, c, f);
    assert Sum([xs[i]], f) == f(xs[i]) by {
      assert [xs[i]][..0] == [];
    }
  }

  /** A sum of non-negative measures is non-negative. */
  lemma {:induction false} SumNonNegative<T>(xs: seq<T>, f: T -> int)
    requires forall i :: 0 <= i < |xs| ==> f(xs[i]) >= 0
    ensures Sum(xs, f) >= 0
    decreases |xs|
  {
    if |xs| > 0 {
      SumNonNegative(xs[..|xs| - 1], f);
    }
  }
}
