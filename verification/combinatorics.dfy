/** Binomial coefficients over mathematical integers: the reference
    definition `nChooseK` is checked against, and the identities its
    shortcuts, symmetry rewrite and multiplicative loop rely on. */
module Combinatorics {

  /** The number of k-element subsets of an n-element set, by Pascal's rule.
      It is total: a k larger than n gives 0. */
  function Choose(n: nat, k: nat): (c: nat)
  {
    if k == 0 then 1
    else if n == 0 then 0
    else Choose(n - 1, k - 1) + Choose(n - 1, k)
  }

  function Factorial(n: nat): (r: nat)
    ensures r >= 1
  {
    if n == 0 then 1 else n * Factorial(n - 1)
  }

  /** There is no way to pick more elements than the set holds. */
  lemma {:induction false} ChooseAboveN(n: nat, k: nat)
    requires k > n
    ensures Choose(n, k) == 0
  {
    if n > 0 {
      ChooseAboveN(n - 1, k - 1);
      ChooseAboveN(n - 1, k);
    }
  }

  /** Inside the domain there is always at least one subset. */
  lemma {:induction false} ChoosePositive(n: nat, k: nat)
    requires k <= n
    ensures Choose(n, k) >= 1
  {
    if k > 0 {
      ChoosePositive(n - 1, k - 1);
    }
  }

  /** Choose(n, k) is non-zero exactly inside the domain 0 <= k <= n. */
  lemma ChooseNonZeroIff(n: nat, k: nat)
    ensures Choose(n, k) > 0 <==> k <= n
  {
    if k <= n { ChoosePositive(n, k); } else { ChooseAboveN(n, k); }
  }

  lemma {:induction false} ChooseAll(n: nat)
    ensures Choose(n, n) == 1
  {
    if n > 0 {
      ChooseAll(n - 1);
      ChooseAboveN(n - 1, n);
    }
  }

  lemma {:induction false} ChooseOne(n: nat)
    ensures Choose(n, 1) == n
  {
    if n > 0 {
      ChooseOne(n - 1);
    }
  }

  /** Choosing the k members is choosing the n - k non-members. */
  lemma {:induction false} ChooseSymmetric(n: nat, k: nat)
    requires k <= n
    ensures Choose(n, k) == Choose(n, n - k)
  {
    if k == 0 {
      ChooseAll(n);
    } else if k == n {
      ChooseAll(n);
    } else {
      ChooseSymmetric(n - 1, k - 1);
      ChooseSymmetric(n - 1, k);
      assert n - 1 - (k - 1) == n - k;
      assert n - k - 1 == n - 1 - k;
    }
  }

  /** The absorption identity j * C(m, j) == m * C(m - 1, j - 1). */
  lemma {:induction false} ChooseAbsorption(m: nat, j: nat)
    requires m >= 1 && j >= 1
    ensures j * Choose(m, j) == m * Choose(m - 1, j - 1)
  {
    if j == 1 {
      ChooseOne(m);
    } else if m == 1 {
      ChooseAboveN(0, j - 1);
      ChooseAboveN(1, j);
    } else {
      // C(m, j) = C(m-1, j-1) + C(m-1, j) and C(m-1, j-1) = C(m-2, j-2) + C(m-2, j-1)
      ChooseAbsorption(m - 1, j);
      ChooseAbsorption(m - 1, j - 1);
      var a := Choose(m - 1, j - 1);
      var b := Choose(m - 1, j);
      assert Choose(m, j) == a + b;
      assert a == Choose(m - 2, j - 2) + Choose(m - 2, j - 1);
      AbsorptionStep(m, j, a, b, Choose(m - 2, j - 2), Choose(m - 2, j - 1));
    }
  }

  lemma AbsorptionStep(m: int, j: int, a: int, b: int, c: int, d: int)
    requires a == c + d && j * b == (m - 1) * d && (j - 1) * a == (m - 1) * c
    ensures j * (a + b) == m * a
  {
    calc {
      j * (a + b);
      j * a + j * b;
      (j - 1) * a + a + j * b;
      (m - 1) * c + a + (m - 1) * d;
      (m - 1) * (c + d) + a;
      m * a;
    }
  }

  /** One step of the multiplicative recurrence: multiplying C(m-1, i-1) by m
      gives a multiple of i, and the exact quotient is C(m, i). */
  lemma MultiplicativeStep(m: nat, i: nat)
    requires m >= 1 && i >= 1
    ensures (Choose(m - 1, i - 1) * m) % i == 0
    ensures (Choose(m - 1, i - 1) * m) / i == Choose(m, i)
  {
    ChooseAbsorption(m, i);
    ExactDivision(Choose(m - 1, i - 1) * m, i, Choose(m, i));
  }

  lemma ExactDivision(x: int, d: int, q: int)
    requires d > 0 && x == d * q
    ensures x % d == 0 && x / d == q
  {
    var r := x % d;
    var p := x / d;
    assert x == d * p + r;
    assert d * (q - p) == r by {
      assert d * q - d * p == d * (q - p);
    }
    if q - p >= 1 {
      MulPositiveGrows(d, q - p);
    } else if q - p <= -1 {
      MulPositiveGrows(d, p - q);
    }
  }

  lemma MulPositiveGrows(d: int, e: int)
    requires d > 0 && e >= 1
    ensures d * e >= d
  {
  }

  /** The factorial formula C(n, k) * k! * (n - k)! == n!, an independent
      characterisation of Pascal's triangle. */
  lemma {:induction false} ChooseFactorial(n: nat, k: nat)
    requires k <= n
    ensures Choose(n, k) * Factorial(k) * Factorial(n - k) == Factorial(n)
  {
    if k > 0 {
      ChooseFactorial(n - 1, k - 1);
      ChooseAbsorption(n, k);
      assert n - 1 - (k - 1) == n - k;
      FactorialStep(n, k, Choose(n, k), Choose(n - 1, k - 1),
                    Factorial(k - 1), Factorial(n - k), Factorial(n - 1));
    }
  }

  lemma FactorialStep(n: int, k: int, c: int, c': int, f: int, g: int, h: int)
    requires k * c == n * c' && c' * f * g == h
    ensures c * (k * f) * g == n * h
  {
    calc {
      c * (k * f) * g;
      (k * c) * f * g;
      (n * c') * f * g;
      n * (c' * f * g);
    }
  }

  /** The partial convolution sum_{j < t} C(m, j) * C(r, s - j), for t <= s + 1. */
  function Convolution(m: nat, r: nat, s: nat, t: nat): (sum: nat)
    requires t <= s + 1
  {
    if t == 0 then 0
    else Convolution(m, r, s, t - 1) + Choose(m, t - 1) * Choose(r, s - (t - 1))
  }

  lemma {:induction false} ConvolutionEmptyLeft(r: nat, s: nat, t: nat)
    requires 1 <= t <= s + 1
    ensures Convolution(0, r, s, t) == Choose(r, s)
  {
    if t > 1 {
      ConvolutionEmptyLeft(r, s, t - 1);
      ChooseAboveN(0, t - 1);
    }
  }

  /** Splitting C(m + 1, j) by Pascal's rule splits the convolution in two. */
  lemma {:induction false} ConvolutionPascal(m: nat, r: nat, s: nat, t: nat)
    requires s >= 1 && 1 <= t <= s + 1
    ensures Convolution(m + 1, r, s, t) == Convolution(m, r, s, t) + Convolution(m, r, s - 1, t - 1)
  {
    if t > 1 {
      ConvolutionPascal(m, r, s, t - 1);
      var u := t - 1;
      assert Choose(m + 1, u) == Choose(m, u - 1) + Choose(m, u);
      assert s - u == (s - 1) - (u - 1);
      DistributeRight(Choose(m, u - 1), Choose(m, u), Choose(r, s - u));
    }
  }

  lemma DistributeRight(a: int, b: int, c: int)
    ensures (a + b) * c == a * c + b * c
  {
  }

  /** Vandermonde's identity: sum_{j <= s} C(m, j) * C(r, s - j) == C(m + r, s). */
  lemma {:induction false} Vandermonde(m: nat, r: nat, s: nat)
    ensures Convolution(m, r, s, s + 1) == Choose(m + r, s)
  {
    if m == 0 {
      ConvolutionEmptyLeft(r, s, s + 1);
    } else if s == 0 {
      assert Convolution(m, r, 0, 1) == 1;
    } else {
      ConvolutionPascal(m - 1, r, s, s + 1);
      Vandermonde(m - 1, r, s);
      Vandermonde(m - 1, r, s - 1);
      assert Choose(m + r, s) == Choose(m - 1 + r, s - 1) + Choose(m - 1 + r, s);
    }
  }

  /** Vandermonde's identity for a population of n split into m and n - m. */
  lemma VandermondeSplit(m: nat, n: nat, s: nat)
    requires m <= n
    ensures Convolution(m, n - m, s, s + 1) == Choose(n, s)
  {
    Vandermonde(m, n - m, s);
    assert m + (n - m) == n;
  }

  /** Every term of the convolution is bounded by the sum. */
  lemma {:induction false} ConvolutionTermBound(m: nat, r: nat, s: nat, t: nat, j: nat)
    requires j < t <= s + 1
    ensures Choose(m, j) * Choose(r, s - j) <= Convolution(m, r, s, t)
  {
    var last := Choose(m, t - 1) * Choose(r, s - (t - 1));
    assert Convolution(m, r, s, t) == Convolution(m, r, s, t - 1) + last;
    if j < t - 1 {
      ConvolutionTermBound(m, r, s, t - 1, j);
    } else {
      assert Choose(m, j) * Choose(r, s - j) == last;
    }
  }
}
