/** Facts about multiples and remainders that the quantization arithmetic rests on. */
module Arith {

  /** A product with a positive factor is at least as far from zero as that factor, unless it is zero. */
  lemma ProductApart(n: int, k: int)
    requires n > 0
    ensures k > 0 ==> n * k >= n
    ensures k < 0 ==> n * k <= -n
    decreases if k < 0 then -k else k
  {
    if k > 1 {
      ProductApart(n, k - 1);
    } else if k < -1 {
      ProductApart(n, k + 1);
    }
  }

  /** Quotient and remainder are unique. */
  lemma DivModUnique(x: int, n: int, q: int, r: int)
    requires n > 0 && 0 <= r < n
    requires x == q * n + r
    ensures x / n == q && x % n == r
  {
    var k := q - x / n;
    assert n * k == x % n - r by {
      assert n * k == n * q - n * (x / n);
      assert x == n * (x / n) + x % n;
    }
    ProductApart(n, k);
  }

  /** Adding whole multiples does not change the remainder. */
  lemma ModShift(x: int, n: int, k: int)
    requires n > 0
    ensures (x + k * n) % n == x % n
    ensures (x + k * n) / n == x / n + k
  {
    assert x + k * n == (x / n + k) * n + x % n by {
      assert x == n * (x / n) + x % n;
      assert (x / n + k) * n == (x / n) * n + k * n;
    }
    DivModUnique(x + k * n, n, x / n + k, x % n);
  }

  /** A number with remainder zero is the quotient times the divisor. */
  lemma Multiple(x: int, n: int)
    requires n > 0 && x % n == 0
    ensures x == (x / n) * n
  {
  }

  lemma MultipleOf(k: int, n: int)
    requires n > 0
    ensures (k * n) % n == 0 && (k * n) / n == k
  {
    DivModUnique(k * n, n, k, 0);
  }

  /** Taking off the remainder leaves a multiple. */
  lemma RoundedDown(x: int, n: int)
    requires x >= 0 && n > 0
    ensures 0 <= x - x % n <= x && (x - x % n) % n == 0
  {
    assert x - x % n == (x / n) * n;
    MultipleOf(x / n, n);
  }

  /** Numbers with equal remainders that lie less than one divisor apart are equal. */
  lemma CongruentClose(x: int, y: int, n: int)
    requires n > 0 && x % n == y % n
    requires -n < x - y < n
    ensures x == y
  {
    var k := x / n - y / n;
    assert x - y == n * k by {
      assert x == n * (x / n) + x % n;
      assert y == n * (y / n) + y % n;
      assert n * k == n * (x / n) - n * (y / n);
    }
    ProductApart(n, k);
  }

  /** Two multiples in order are at least one divisor apart. */
  lemma MultiplesApart(x: int, y: int, n: int)
    requires n > 0 && x % n == 0 && y % n == 0 && x < y
    ensures x + n <= y
  {
    if y - x < n {
      CongruentClose(x, y, n);
    }
  }

  lemma SumOfMultiples(x: int, y: int, n: int)
    requires n > 0 && x % n == 0 && y % n == 0
    ensures (x + y) % n == 0 && (x - y) % n == 0
  {
    Multiple(y, n);
    ModShift(x, n, y / n);
    ModShift(x, n, -(y / n));
    assert -(y / n) * n == -y;
  }

  /** A multiple of a multiple of n is a multiple of n. */
  lemma MultipleTransitive(x: int, m: int, n: int)
    requires m > 0 && n > 0 && x % m == 0 && m % n == 0
    ensures x % n == 0
  {
    Multiple(x, m);
    Multiple(m, n);
    assert x == ((x / m) * (m / n)) * n;
    MultipleOf((x / m) * (m / n), n);
  }

  lemma DivMonotone(x: int, y: int, n: int)
    requires n > 0 && x <= y
    ensures x / n <= y / n
  {
    QuotientsOrdered(n, x, x / n, y, y / n);
  }

  lemma QuotientsOrdered(n: int, x: int, p: int, y: int, q: int)
    requires 0 < n && x <= y && n * p <= x && y < n * q + n
    ensures p <= q
  {
    ProductApart(n, p - q);
    assert n * (p - q) == n * p - n * q;
  }

  lemma ProductMonotone(x: int, y: int, n: int)
    requires 0 < n && x <= y
    ensures x * n <= y * n
    ensures x < y ==> x * n + n <= y * n
  {
    ProductApart(n, y - x);
    assert n * (y - x) == y * n - x * n;
  }
}
