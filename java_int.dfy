/** `nChooseK` exactly as written, on Java's 32-bit `int`: every product wraps
    around modulo 2^32 and the final division truncates toward zero. The rest
    of the model uses `Combinatorics.NChooseK` over unbounded integers; this
    module records where the two part ways. */
module JavaInt {
  import opened Combinatorics

  datatype Option<T> = None | Some(value: T)

  const TWO_32: int := 0x1_0000_0000
  const MIN_INT: int := -0x8000_0000
  const MAX_INT: int := 0x7fff_ffff

  /** The Java `int` holding the low 32 bits of x. */
  function Wrap(x: int): (r: int)
    ensures MIN_INT <= r <= MAX_INT
    ensures (x - r) % TWO_32 == 0
    ensures MIN_INT <= x <= MAX_INT ==> r == x
  {
    (x - MIN_INT) % TWO_32 + MIN_INT
  }

  /** Java's `/` on `int`: the quotient truncated toward zero (and wrapped, which
      only matters for MIN_INT / -1). */
  function JavaDiv(a: int, b: int): (r: int)
    requires b != 0
    ensures 0 <= a <= MAX_INT && b > 0 ==> r == a / b
  {
    var q := (if a >= 0 then a else -a) / (if b >= 0 then b else -b);
    DivAtMost(if a >= 0 then a else -a, if b >= 0 then b else -b);
    Wrap(if (a >= 0) == (b > 0) then q else -q)
  }

  lemma DivAtMost(a: nat, b: int)
    requires b != 0
    ensures 0 <= a / (if b >= 0 then b else -b) <= a
  {
    var d := if b >= 0 then b else -b;
    var q := a / d;
    assert q * d <= a;
    AtLeastFactor(d, q);
  }

  lemma WrapShift(x: int, m: int)
    ensures Wrap(x + m * TWO_32) == Wrap(x)
  {
  }

  /** Wrapping after every multiplication is wrapping once at the end. */
  lemma WrapMul(a: int, b: int)
    ensures Wrap(Wrap(a) * b) == Wrap(a * b)
  {
    var k := (a - Wrap(a)) / TWO_32;
    assert a - Wrap(a) == k * TWO_32;
    assert Wrap(a) * b == a * b + (-(k * b)) * TWO_32;
    WrapShift(a * b, -(k * b));
  }

  /** What the Java method returns: the partial factorial and the full
      factorial each reduced to 32 bits, then divided; `None` when the
      denominator has wrapped to zero, where Java throws ArithmeticException. */
  function JavaChoose(n: nat, k: nat): Option<int>
    requires k <= n
  {
    if k == 0 || k == n then Some(1)
    else
      var b := Bounds(n, k);
      var den := Wrap(Fact(b.1));
      if den == 0 then None else Some(JavaDiv(Wrap(RangeProduct(b.0, n)), den))
  }

  /** `nChooseK` with every `*` on 32-bit `int`. */
  method NChooseKInt32(n: int, k: int) returns (r: Option<int>)
    requires 0 <= k <= n < MAX_INT
    ensures r == JavaChoose(n, k)
  {
    var numerator := 0;
    var denominator := 1;
    var startUp := 0;
    var denomStop;

    if k == 0 || n == k {
      return Some(1);
    }

    var b := Bounds(n, k);
    startUp, denomStop := b.0, b.1;
    ghost var first := startUp;

    numerator := startUp;
    startUp := startUp + 1;
    while startUp <= n
      invariant first + 1 <= startUp <= n + 1
      invariant numerator == Wrap(RangeProduct(first, startUp - 1))
    {
      WrapMul(RangeProduct(first, startUp - 1), startUp);
      numerator := Wrap(numerator * startUp);
      startUp := startUp + 1;
    }

    for i := 2 to denomStop + 1
      invariant denominator == Wrap(Fact(i - 1))
    {
      WrapMul(Fact(i - 1), i);
      denominator := Wrap(denominator * i);
    }

    if denominator == 0 {
      r := None;
    } else {
      r := Some(JavaDiv(numerator, denominator));
    }
  }

  /** While the partial factorial fits in an `int`, the Java result is exact. */
  lemma JavaChooseExact(n: nat, k: nat)
    requires k <= n
    requires RangeProduct(Bounds(n, k).0, n) <= MAX_INT
    ensures JavaChoose(n, k) == Some(Binom(n, k))
  {
    if k != 0 && k != n {
      var b := Bounds(n, k);
      ChooseQuotient(n, k);
      var c, f, p := Binom(n, k), Fact(b.1), RangeProduct(b.0, n);
      assert p == c * f;
      AtLeastFactor(c, f);
      assert Wrap(p) == p && Wrap(f) == f;
      DivExact(c, f);
      assert JavaDiv(p, f) == c;
    }
  }

  lemma {:induction false} RangeProductAntitone(lo: nat, lo2: nat, hi: nat)
    requires 1 <= lo <= lo2
    ensures RangeProduct(lo2, hi) <= RangeProduct(lo, hi)
    decreases hi
  {
    if hi >= lo2 {
      RangeProductAntitone(lo, lo2, hi - 1);
      var a, b := RangeProduct(lo2, hi - 1), RangeProduct(lo, hi - 1);
      assert RangeProduct(lo2, hi) == a * hi;
      assert RangeProduct(lo, hi) == b * hi;
      MulMonotone(a, b, hi);
    }
  }

  /** The largest partial factorial the dispatch can ask for, for n dice:
      (n / 2 + 2) * ... * n, which fits in an `int` up to 18 dice. */
  lemma WorstProductFits(n: nat)
    requires n <= 18
    ensures RangeProduct(n / 2 + 2, n) <= MAX_INT
  {
    if n == 18 {
      assert RangeProduct(11, 18) == 1764322560;
    } else if n == 17 {
      assert RangeProduct(10, 17) == 980179200;
    } else if n >= 15 {
      Within(n, 9, 16);
      assert RangeProduct(9, 16) == 518918400;
    } else if n >= 13 {
      Within(n, 8, 14);
      assert RangeProduct(8, 14) == 17297280;
    } else if n >= 9 {
      Within(n, 6, 12);
      assert RangeProduct(6, 12) == 3991680;
    } else {
      Within(n, 2, 8);
      assert RangeProduct(2, 8) == 40320;
    }
  }

  /** The partial factorial over a sub-range is at most that over the range. */
  lemma Within(n: nat, lo: nat, hi: nat)
    requires 1 <= lo <= n / 2 + 2 && n <= hi
    ensures RangeProduct(n / 2 + 2, n) <= RangeProduct(lo, hi)
  {
    RangeProductUpTo(n / 2 + 2, n, hi);
    RangeProductAntitone(lo, n / 2 + 2, hi);
  }

  lemma {:induction false} RangeProductUpTo(lo: nat, hi: nat, hi2: nat)
    requires 1 <= lo && hi <= hi2
    ensures RangeProduct(lo, hi) <= RangeProduct(lo, hi2)
    decreases hi2
  {
    if hi2 > hi {
      RangeProductUpTo(lo, hi, hi2 - 1);
      if hi2 >= lo {
        var a := RangeProduct(lo, hi2 - 1);
        assert RangeProduct(lo, hi2) == a * hi2;
        AtLeastFactor(hi2, a);
      }
    }
  }

  /** For up to 18 dice every coefficient the dispatch asks for (k above
      n / 2) is computed exactly in 32 bits. */
  lemma ExactUpTo18Dice(n: nat, k: nat)
    requires n <= 18 && n / 2 < k <= n
    ensures JavaChoose(n, k) == Some(Binom(n, k))
  {
    WorstProductFits(n);
    RangeProductAntitone(n / 2 + 2, k + 1, n);
    JavaChooseExact(n, k);
  }

  /** With 20 dice and 11 successes needed the first coefficient
      `calculateBySuccess` asks for overflows: 12 * ... * 20 = 60949324800
      wraps to 819782656, and 819782656 / 9! gives 2259 instead of
      C(20, 11) = 167960. (The arguments are parameters so that the
      coefficient is not unfolded by Pascal's rule.) */
  lemma OverflowAtTwentyDice(n: nat, k: nat)
    requires n == 20 && k == 11
    ensures Binom(n, k) == 167960
    ensures JavaChoose(n, k) == Some(2259)
  {
    BinomTwenty(n, k);
    JavaChooseTwenty(n, k);
  }

  lemma BinomTwenty(n: nat, k: nat)
    requires n == 20 && k == 11
    ensures Binom(n, k) == 167960
  {
    var lo, m := Max(k, n - k) + 1, Min(k, n - k);
    assert lo == 12 && m == 9;
    FactNine();
    TwentyProduct();
    assert RangeProduct(lo, n) == 167960 * Fact(m);
    CoefficientOf(n, k, 167960);
  }

  /** A coefficient is pinned down by the quotient of nChooseK's two products. */
  lemma CoefficientOf(n: nat, k: nat, c: int)
    requires k <= n
    requires RangeProduct(Max(k, n - k) + 1, n) == c * Fact(Min(k, n - k))
    ensures Binom(n, k) == c
  {
    ChooseQuotient(n, k);
    CancelFactor(RangeProduct(Max(k, n - k) + 1, n), Binom(n, k), c, Fact(Min(k, n - k)));
  }

  lemma CancelFactor(p: int, b: int, c: int, f: int)
    requires f >= 1 && p == b * f && p == c * f
    ensures b == c
  {
    CancelLeft(f, b, c);
  }

  lemma JavaChooseTwenty(n: nat, k: nat)
    requires n == 20 && k == 11
    ensures JavaChoose(n, k) == Some(2259)
  {
    assert Bounds(n, k) == (12, 9);
    TwentyProduct();
    WrapTwenty();
    FactNine();
    assert 819782656 == 2259 * 362880 + 36736;
    assert JavaDiv(819782656, 362880) == 2259;
  }

  lemma FactNine()
    ensures Fact(9) == 362880
  {
  }

  lemma TwentyProduct()
    ensures RangeProduct(12, 20) == 60949324800
  {
    assert RangeProduct(12, 16) == 524160;
    assert RangeProduct(12, 20) == 524160 * 17 * 18 * 19 * 20;
  }

  lemma WrapTwenty()
    ensures Wrap(60949324800) == 819782656
  {
    var x := 60949324800 - MIN_INT;
    assert x == 14 * TWO_32 + 2967266304;
  }

  lemma MulMonotone(a: int, b: int, c: nat)
    requires a <= b
    ensures a * c <= b * c
  {
  }

  lemma AtLeastFactor(c: int, f: nat)
    requires c >= 1
    ensures f <= c * f
  {
  }
}
