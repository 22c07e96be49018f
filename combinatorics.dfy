/** Exact integer combinatorics behind `nChooseK`: factorials, partial
    factorials, the binomial coefficient (defined by Pascal's rule, as an
    independent reference), and the loop-based `nChooseK` proved against it. */
module Combinatorics {

  /** n!, the number of orderings of n items. */
  function Fact(n: nat): (r: nat)
    ensures r >= 1
  {
    if n == 0 then 1 else n * Fact(n - 1)
  }

  /** The partial factorial lo * (lo + 1) * ... * hi; the empty product is 1. */
  function RangeProduct(lo: nat, hi: nat): (r: nat)
    requires lo >= 1
    ensures r >= 1
    decreases hi
  {
    if hi < lo then 1 else RangeProduct(lo, hi - 1) * hi
  }

  function Max(a: int, b: int): int { if a >= b then a else b }
  function Min(a: int, b: int): int { if a <= b then a else b }

  /** The binomial coefficient C(n, k), defined by Pascal's rule; this is the
      reference the loops of `NChooseK` are proved against. */
  function Binom(n: nat, k: nat): (r: nat)
    requires k <= n
    ensures r >= 1
  {
    if k == 0 || k == n then 1 else Binom(n - 1, k - 1) + Binom(n - 1, k)
  }

  /** x! / y! is the product of the integers y + 1 .. x (for y <= x). */
  lemma {:induction false} FactSplit(m: nat, n: nat)
    requires m <= n
    ensures Fact(n) == Fact(m) * RangeProduct(m + 1, n)
    decreases n
  {
    if n > m {
      FactSplit(m, n - 1);
      var a, b := Fact(m), RangeProduct(m + 1, n - 1);
      assert Fact(n) == n * (a * b);
      assert RangeProduct(m + 1, n) == b * n;
      Rotate(a, b, n);
    }
  }

  /** The closed form n! / (k! (n - k)!) of the binomial coefficient. */
  lemma {:induction false} BinomFact(n: nat, k: nat)
    requires k <= n
    ensures Binom(n, k) * Fact(k) * Fact(n - k) == Fact(n)
    decreases n
  {
    if 0 < k < n {
      BinomFact(n - 1, k - 1);
      BinomFact(n - 1, k);
      var a, b := Binom(n - 1, k - 1), Binom(n - 1, k);
      var f := Fact(n - 1);
      var fk1, fnk1 := Fact(k - 1), Fact(n - 1 - k);
      assert Fact(k) == k * fk1;
      assert Fact(n - k) == (n - k) * fnk1;
      assert a * fk1 * ((n - k) * fnk1) == f;
      assert b * (k * fk1) * fnk1 == f;
      // (a + b) k! (n-k)!  =  k (a (k-1)! (n-k)!) + (n-k) (b k! (n-1-k)!)  =  n (n-1)!
      var x, y := k * fk1, (n - k) * fnk1;
      Distribute(a, b, x, y);
      PullMiddle(a, k, fk1, y);
      PullLast(b, n - k, x, fnk1);
      assert a * x * y == k * f;
      assert b * x * y == (n - k) * f;
      assert k * f + (n - k) * f == n * f;
      assert Fact(n) == n * f;
    }
  }

  /** Choosing k items is choosing the n - k items left behind. */
  lemma {:induction false} BinomSymmetric(n: nat, k: nat)
    requires k <= n
    ensures Binom(n, k) == Binom(n, n - k)
    decreases n
  {
    if k == 0 || k == n {
    } else {
      BinomSymmetric(n - 1, k - 1);
      BinomSymmetric(n - 1, k);
      assert n - 1 - (k - 1) == n - k;
      assert Binom(n, n - k) == Binom(n - 1, n - k - 1) + Binom(n - 1, n - k);
    }
  }

  /** The branch of `nChooseK` that picks where the partial factorial of the
      numerator starts and where the full factorial of the denominator stops:
      the numerator runs from max(k, n - k) + 1 up to n, the denominator is
      min(k, n - k)!. */
  function Bounds(n: nat, k: nat): (b: (nat, nat))
    requires k <= n
    ensures b.0 == Max(k, n - k) + 1
    ensures b.1 == Min(k, n - k)
  {
    if k > n / 2 then (k + 1, n - k) else (n - k + 1, k)
  }

  /** Both arms of the branch give the same pair for k and for n - k. */
  lemma BoundsSymmetric(n: nat, k: nat)
    requires k <= n
    ensures Bounds(n, k) == Bounds(n, n - k)
  {
  }

  /** The quotient the last line of `nChooseK` computes is exact:
      (max + 1) * ... * n = C(n, k) * min!. */
  lemma ChooseQuotient(n: nat, k: nat)
    requires k <= n
    ensures RangeProduct(Max(k, n - k) + 1, n) == Binom(n, k) * Fact(Min(k, n - k))
  {
    var hi, lo := Max(k, n - k), Min(k, n - k);
    var c, fh, fl, rp := Binom(n, k), Fact(hi), Fact(lo), RangeProduct(hi + 1, n);
    var f := Fact(n);
    assert c * fl * fh == f by {
      BinomFact(n, k);
      if k >= n - k {
        assert hi == k && lo == n - k;
        Swap(c, fh, fl);
      } else {
        assert hi == n - k && lo == k;
      }
    }
    assert fh * rp == f by {
      FactSplit(hi, n);
    }
    Quotient(c * fl, fh, rp, f);
  }

  lemma Quotient(a: int, b: int, x: int, f: int)
    requires b != 0 && a * b == f && b * x == f
    ensures x == a
  {
    assert b * x == b * a;
    CancelLeft(b, x, a);
  }

  // Small facts of integer arithmetic, stated separately so that the
  // nonlinear steps above stay cheap for the solver.

  lemma Rotate(a: int, b: int, c: int)
    ensures c * (a * b) == a * (b * c) == a * b * c
  {
  }

  lemma Swap(a: int, b: int, c: int)
    ensures a * b * c == a * c * b
  {
  }

  lemma PullMiddle(a: int, c: int, x: int, y: int)
    ensures a * (c * x) * y == c * (a * x * y)
  {
  }

  lemma PullLast(a: int, c: int, x: int, y: int)
    ensures a * x * (c * y) == c * (a * x * y)
  {
  }

  lemma Distribute(a: int, b: int, x: int, y: int)
    ensures (a + b) * x * y == a * x * y + b * x * y
  {
  }

  lemma CancelLeft(c: int, x: int, y: int)
    requires c != 0 && c * x == c * y
    ensures x == y
  {
    assert c * (x - y) == 0;
  }

  lemma DivExact(a: int, b: int)
    requires b > 0
    ensures (a * b) / b == a
  {
    var q, r := (a * b) / b, (a * b) % b;
    assert (a - q) * b == r;
    MulSmall(a - q, b);
  }

  lemma MulSmall(x: int, b: int)
    requires b > 0 && 0 <= x * b < b
    ensures x == 0
  {
  }

  /** `nChooseK`: the number of ways to choose k of n items, computed as the
      partial factorial (max(k, n-k) + 1) * ... * n divided by min(k, n-k)!. */
  method NChooseK(n: int, k: int) returns (r: int)
    requires 0 <= k <= n
    ensures r == Binom(n, k)
    ensures k == 0 || k == n ==> r == 1
  {
    var numerator := 0;
    var denominator := 1;
    var startUp := 0;
    var denomStop;

    if k == 0 || n == k {
      return 1;
    }

    var b := Bounds(n, k);
    startUp, denomStop := b.0, b.1;
    ghost var first := startUp;

    numerator := startUp;
    startUp := startUp + 1;
    while startUp <= n
      invariant first + 1 <= startUp <= n + 1
      invariant numerator == RangeProduct(first, startUp - 1)
    {
      numerator := numerator * startUp;
      startUp := startUp + 1;
    }

    for i := 2 to denomStop + 1
      invariant denominator == Fact(i - 1)
    {
      denominator := denominator * i;
    }

    ChooseQuotient(n, k);
    DivExact(Binom(n, k), denominator);
    r := numerator / denominator;
  }
}
