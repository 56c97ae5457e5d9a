/** The least common multiple of a list of 32-bit intervals. */
module Lcms {
  import opened Arith
  import opened Quantize

  ghost predicate Positive(vals: seq<int>) {
    forall i :: 0 <= i < |vals| ==> 0 < vals[i] < U32
  }

  ghost predicate CommonMultiple(n: int, vals: seq<int>)
    requires Positive(vals)
  {
    0 < n && forall i :: 0 <= i < |vals| ==> n % vals[i] == 0
  }

  /** m is a common multiple, and every common multiple is a multiple of m. */
  ghost predicate IsLcm(m: int, vals: seq<int>)
    requires Positive(vals)
  {
    CommonMultiple(m, vals) && forall n :: CommonMultiple(n, vals) ==> n % m == 0
  }

  /** The common multiple fits in 32 bits. */
  ghost predicate Fits(vals: seq<int>)
    requires Positive(vals)
  {
    exists n :: n < U32 && CommonMultiple(n, vals)
  }

  /** A least common multiple is indeed the least. */
  lemma LcmLeast(m: int, vals: seq<int>, n: int)
    requires Positive(vals) && IsLcm(m, vals) && CommonMultiple(n, vals)
    ensures m <= n
  {
    Multiple(n, m);
    if n / m <= 0 {
      ProductMonotone(n / m, 0, m);
    } else {
      ProductMonotone(1, n / m, m);
    }
  }

  // ---------------------------------------------------------------------------------------------
  // Two numbers.

  /** j is the least factor that makes a multiple of max also one of min. */
  ghost predicate LeastFactor(j: int, max: int, min: int)
    requires 0 < min
  {
    1 <= j && (j * max) % min == 0 && forall k :: 1 <= k < j ==> (k * max) % min != 0
  }

  /** The least common multiple of two numbers divides all their common multiples. */
  lemma LeastDivides(j: int, max: int, min: int, n: int)
    requires 0 < min && 0 < max && LeastFactor(j, max, min) && n % max == 0 && n % min == 0 && 0 <= n
    ensures 0 < j * max && n % (j * max) == 0
  {
    var l := j * max;
    ProductMonotone(1, j, max);
    var r := n % l;
    RoundedDown(n, l);
    MultipleOf(j, max);
    MultipleTransitive(n - r, l, max);
    MultipleTransitive(n - r, l, min);
    SumOfMultiples(n, n - r, max);
    SumOfMultiples(n, n - r, min);
    Multiple(r, max);
    var k := r / max;
    if 0 < r {
      assert 1 <= k by {
        if k <= 0 {
          ProductMonotone(k, 0, max);
        }
      }
      if j <= k {
        ProductMonotone(j, k, max);
      }
    }
  }

  /** A common multiple is at least the least factor times the larger number. */
  lemma FactorBelow(max: int, min: int, n: int, j: int)
    requires 0 < min && 0 < max && 0 < n && n % max == 0 && n % min == 0
    requires forall k :: 1 <= k < j ==> (k * max) % min != 0
    ensures j * max <= n
  {
    Multiple(n, max);
    var k := n / max;
    if k <= 0 {
      ProductMonotone(k, 0, max);
    }
    if j <= k {
      ProductMonotone(j, k, max);
    }
  }

  /** There is a least factor, and it is at most the smaller number. */
  lemma {:induction false} SearchFactor(max: int, min: int, j: int) returns (j0: int)
    requires 0 < min && 1 <= j <= min && forall k :: 1 <= k < j ==> (k * max) % min != 0
    ensures LeastFactor(j0, max, min) && j <= j0 <= min
    decreases min - j
  {
    MultipleOf(max, min);
    assert min * max == max * min;
    if (j * max) % min == 0 {
      j0 := j;
    } else {
      j0 := SearchFactor(max, min, j + 1);
    }
  }

  /** out is the least common multiple of a and b. */
  ghost predicate IsPairLcm(out: int, a: int, b: int)
    requires 0 < a && 0 < b
  {
    0 < out && out % a == 0 && out % b == 0 && forall n :: 0 < n && n % a == 0 && n % b == 0 ==> n % out == 0
  }

  ghost predicate PairFits(a: int, b: int)
    requires 0 < a && 0 < b
  {
    exists n :: 0 < n < U32 && n % a == 0 && n % b == 0
  }

  lemma LeastIsLcm(j: int, max: int, min: int)
    requires 0 < min && 0 < max && LeastFactor(j, max, min)
    ensures IsPairLcm(j * max, max, min) && IsPairLcm(j * max, min, max)
  {
    ProductMonotone(1, j, max);
    MultipleOf(j, max);
    forall n | 0 < n && n % max == 0 && n % min == 0
      ensures n % (j * max) == 0
    {
      LeastDivides(j, max, min, n);
    }
  }

  lemma FactorFits(max: int, min: int, j: int, j0: int)
    requires 0 < min && 0 < max && LeastFactor(j0, max, min) && PairFits(max, min) && 1 <= j <= j0
    ensures 0 <= j * max <= j0 * max < U32
  {
    var n :| 0 < n < U32 && n % max == 0 && n % min == 0;
    FactorBelow(max, min, n, j0);
    ProductMonotone(j, j0, max);
    ProductMonotone(0, j, max);
  }

  /** Looks for the least factor with 32-bit products; without overflow it finds it. */
  method FindFactor(max: int, min: int, was: int) returns (out: int)
    requires 0 < min <= max < U32 && max % min != 0 && 0 <= was < U32
    ensures 0 <= out < U32
    ensures PairFits(max, min) ==> IsPairLcm(out, max, min) && IsPairLcm(out, min, max)
  {
    out := was;
    assert 1 * max == max;
    ghost var j0 := SearchFactor(max, min, 1);
    var j, found := 2, false;
    while j <= min && !found
      invariant 2 <= j
      invariant PairFits(max, min) && !found ==> j <= j0
      invariant PairFits(max, min) && found ==> out == j0 * max
      invariant 0 <= out < U32
      decreases min - j + 1, !found
    {
      if PairFits(max, min) {
        FactorFits(max, min, j, j0);
      }
      if Wrap32(j * max) % min == 0 {
        out := Wrap32(j * max);
        found := true;
      } else {
        j := j + 1;
      }
    }
    LeastIsLcm(j0, max, min);
  }

  /** The least common multiple of two numbers; a zero, left by an overflow, leads to a division by zero. */
  method Join(a: int, b: int) returns (panics: bool, out: int)
    requires 0 <= a < U32 && 0 < b < U32
    ensures panics <==> a == 0
    ensures 0 <= out < U32
    ensures 0 < a && PairFits(a, b) ==> IsPairLcm(out, a, b)
  {
    var max, min := if b > a then b else a, if b < a then b else a;
    panics, out := min == 0, a;
    if !panics {
      if max % min != 0 {
        out := FindFactor(max, min, a);
      } else {
        out := max;
        MaxIsLcm(max, min);
      }
    }
  }

  lemma MaxIsLcm(max: int, min: int)
    requires 0 < min <= max && max % min == 0
    ensures IsPairLcm(max, max, min) && IsPairLcm(max, min, max)
  {
    MultipleOf(1, max);
  }

  // ---------------------------------------------------------------------------------------------
  // A list of numbers.

  lemma PrefixFits(vals: seq<int>, i: int, out: int)
    requires 0 < i < |vals| && Positive(vals) && Fits(vals) && Positive(vals[..i]) && IsLcm(out, vals[..i])
    ensures 0 < vals[i] && PairFits(out, vals[i])
  {
    var n :| n < U32 && CommonMultiple(n, vals);
    assert CommonMultiple(n, vals[..i]);
    assert n % out == 0 && n % vals[i] == 0;
  }

  lemma NextLcm(vals: seq<int>, v: int, m: int, out: int)
    requires Positive(vals) && 0 < v < U32 && IsLcm(m, vals) && IsPairLcm(out, m, v)
    ensures Positive(vals + [v]) && IsLcm(out, vals + [v])
  {
    forall i | 0 <= i < |vals + [v]|
      ensures out % (vals + [v])[i] == 0
    {
      if i < |vals| {
        MultipleTransitive(out, m, vals[i]);
      }
    }
    forall n | CommonMultiple(n, vals + [v])
      ensures n % out == 0
    {
      CommonParts(n, vals, v);
    }
  }

  lemma CommonParts(n: int, vals: seq<int>, v: int)
    requires Positive(vals) && 0 < v < U32 && Positive(vals + [v]) && CommonMultiple(n, vals + [v])
    ensures CommonMultiple(n, vals) && n % v == 0
  {
    assert (vals + [v])[|vals|] == v;
    forall i | 0 <= i < |vals|
      ensures n % vals[i] == 0
    {
      assert (vals + [v])[i] == vals[i];
    }
  }

  lemma OneLcm(v: int)
    requires 0 < v < U32
    ensures Positive([v]) && IsLcm(v, [v])
  {
    MultipleOf(1, v);
    forall n | CommonMultiple(n, [v])
      ensures n % v == 0
    {
      assert [v][0] == v;
    }
  }

  /** The result is the least common multiple exactly if that fits in 32 bits. */
  method Lcm(vals: seq<int>) returns (panics: bool, out: int)
    requires 0 < |vals| && Positive(vals)
    ensures Fits(vals) <==> !panics && IsLcm(out, vals)
    ensures 0 <= out < U32
  {
    panics, out := false, vals[0];
    OneLcm(vals[0]);
    assert vals[..1] == [vals[0]];
    var i := 1;
    while i < |vals| && !panics
      invariant 1 <= i <= |vals| && 0 <= out < U32 && Positive(vals[..i])
      invariant Fits(vals) ==> !panics && IsLcm(out, vals[..i])
      decreases |vals| - i, !panics
    {
      if Fits(vals) {
        PrefixFits(vals, i, out);
      }
      ghost var m := out;
      panics, out := Join(out, vals[i]);
      if Fits(vals) {
        NextLcm(vals[..i], vals[i], m, out);
      }
      assert vals[..i + 1] == vals[..i] + [vals[i]];
      i := i + 1;
    }
    assert vals[..|vals|] == vals;
  }

  lemma NeverBoth(n: int)
    requires 0 < n < U32
    ensures n % 65537 != 0 || n % 65536 != 0
  {
    var k := n / 65537;
    if n % 65537 == 0 {
      DivModUnique(n, 65536, k, k);
    }
  }

  /** Two intervals whose least common multiple overflows. */
  lemma Overflows()
    ensures Positive([65537, 65536]) && !Fits([65537, 65536])
  {
    var vals := [65537, 65536];
    forall n | 0 < n < U32
      ensures n % vals[0] != 0 || n % vals[1] != 0
    {
      NeverBoth(n);
    }
  }
}
