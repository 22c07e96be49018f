/** Exact binomial probability mass and partial sums of it over the reals,
    the binomial theorem, and the mirror identity that turns a sum over miss
    counts into a sum over success counts. */
module BinomialSum {
  import opened Combinatorics

  /** x^e (the `Math.pow` of the source, for a whole exponent, without rounding). */
  function Pow(x: real, e: nat): real
  {
    if e == 0 then 1.0 else x * Pow(x, e - 1)
  }

  /** A probability raised to a power is again a probability. */
  lemma {:induction false} PowBounds(x: real, e: nat)
    requires 0.0 <= x
    ensures 0.0 <= Pow(x, e)
    ensures x <= 1.0 ==> Pow(x, e) <= 1.0
  {
    if e > 0 {
      PowBounds(x, e - 1);
      ProductBound(x, Pow(x, e - 1));
    }
  }

  lemma ProductBound(x: real, y: real)
    ensures 0.0 <= x && 0.0 <= y ==> 0.0 <= x * y
    ensures 0.0 <= x <= 1.0 && 0.0 <= y <= 1.0 ==> x * y <= 1.0
  {
    if 0.0 <= x <= 1.0 && 0.0 <= y <= 1.0 {
      assert x * y <= 1.0 * y;
    }
  }

  /** C(n, j) as a real number, by Pascal's rule over the reals, so that the
      algebra on mass terms never mixes integers and reals. */
  function Choose(n: nat, j: nat): (r: real)
    requires j <= n
    ensures r >= 1.0
  {
    if j == 0 || j == n then 1.0 else Choose(n - 1, j - 1) + Choose(n - 1, j)
  }

  lemma {:induction false} ChooseIsBinom(n: nat, j: nat)
    requires j <= n
    ensures Choose(n, j) == Binom(n, j) as real
    decreases n
  {
    if 0 < j < n {
      ChooseIsBinom(n - 1, j - 1);
      ChooseIsBinom(n - 1, j);
    }
  }

  /** C(n, j) * p^j * q^(n-j): with q = 1 - p, the probability that exactly j
      of n independent trials succeed when each succeeds with probability p. */
  function Term(n: nat, j: nat, p: real, q: real): real
    requires j <= n
  {
    Choose(n, j) * Pow(p, j) * Pow(q, n - j)
  }

  /** Row n of the expansion of (p + q)^n: Term(n, j, p, q) for j = 0 .. n. */
  function Row(n: nat, p: real, q: real): (r: seq<real>)
    ensures |r| == n + 1
  {
    seq(n + 1, j requires 0 <= j <= n => Term(n, j, p, q))
  }

  /** s[lo] + ... + s[hi - 1], accumulated upwards; empty when hi <= lo. */
  function Sum(s: seq<real>, lo: nat, hi: nat): real
    requires hi <= |s|
    decreases hi
  {
    if hi <= lo then 0.0 else Sum(s, lo, hi - 1) + s[hi - 1]
  }

  /** The probability of at least k successes in n trials of hit chance p:
      the mass at k, k + 1, ..., n (zero when k > n). */
  function Tail(n: nat, k: nat, p: real): real
  {
    Sum(Row(n, p, 1.0 - p), k, n + 1)
  }

  // ---------------------------------------------------------------------
  // Sums of sequences

  lemma {:induction false} SumSplit(s: seq<real>, lo: nat, mid: nat, hi: nat)
    requires lo <= mid <= hi <= |s|
    ensures Sum(s, lo, hi) == Sum(s, lo, mid) + Sum(s, mid, hi)
    decreases hi
  {
    if hi > mid {
      SumSplit(s, lo, mid, hi - 1);
    }
  }

  lemma {:induction false} SumNonnegative(s: seq<real>, lo: nat, hi: nat)
    requires hi <= |s|
    requires forall j :: lo <= j < hi ==> s[j] >= 0.0
    ensures Sum(s, lo, hi) >= 0.0
    decreases hi
  {
    if hi > lo {
      SumNonnegative(s, lo, hi - 1);
    }
  }

  /** Summing a sequence backwards: if a is b reversed, then a[lo .. hi) adds
      up to b[|b| - hi .. |b| - lo). */
  lemma {:induction false} SumReversed(a: seq<real>, b: seq<real>, lo: nat, hi: nat)
    requires |a| == |b|
    requires forall j :: 0 <= j < |a| ==> a[j] == b[|a| - 1 - j]
    requires lo <= hi <= |a|
    ensures Sum(a, lo, hi) == Sum(b, |a| - hi, |a| - lo)
    decreases hi
  {
    if hi > lo {
      SumReversed(a, b, lo, hi - 1);
      SumSplit(b, |a| - hi, |a| - hi + 1, |a| - lo);
    }
  }

  lemma PascalStep(p: real, q: real, s0: real, s1: real, t0: real, t1: real, u0: real, u1: real)
    requires u0 == p * s0 + q * s1 && u1 == p * t0 + q * t1 && s1 == s0 + t0
    ensures u0 + u1 == p * s1 + q * (s1 + t1)
  {
  }

  lemma ExpansionStep(p: real, q: real, s: real, t: real, a: real, b: real)
    requires a == (p * s + q * (s + t)) + p * t && b == s + t
    ensures a == (p + q) * b
  {
  }

  /** r2 is obtained from r by Pascal's rule with weights p and q:
      r2[j] = p r[j - 1] + q r[j], reading r[-1] and r[|r|] as 0. */
  ghost predicate PascalNext(r: seq<real>, r2: seq<real>, p: real, q: real)
  {
    && |r| >= 1 && |r2| == |r| + 1
    && r2[0] == q * r[0]
    && r2[|r|] == p * r[|r| - 1]
    && PascalInterior(r, r2, p, q)
  }

  ghost predicate PascalInterior(r: seq<real>, r2: seq<real>, p: real, q: real)
  {
    forall j :: 1 <= j < |r| ==> PascalAt(r, r2, p, q, j)
  }

  /** Entry j of r2 follows from entries j - 1 and j of r. */
  ghost predicate PascalAt(r: seq<real>, r2: seq<real>, p: real, q: real, j: nat)
  {
    1 <= j < |r| < |r2| && r2[j] == p * r[j - 1] + q * r[j]
  }

  /** The first m + 1 entries of r2 add up to p (r[0] + .. + r[m-1]) + q (r[0] + .. + r[m]). */
  lemma {:induction false} RecurrencePrefix(r: seq<real>, r2: seq<real>, p: real, q: real, m: nat)
    requires PascalNext(r, r2, p, q) && m < |r|
    ensures Sum(r2, 0, m + 1) == p * Sum(r, 0, m) + q * Sum(r, 0, m + 1)
    decreases m
  {
    if m > 0 {
      RecurrencePrefix(r, r2, p, q, m - 1);
      assert PascalAt(r, r2, p, q, m);
      var s0, s1, t0, t1 := Sum(r, 0, m - 1), Sum(r, 0, m), r[m - 1], r[m];
      var u0, u1 := Sum(r2, 0, m), r2[m];
      assert u0 == p * s0 + q * s1;
      assert u1 == p * t0 + q * t1;
      assert s1 == s0 + t0;
      PascalStep(p, q, s0, s1, t0, t1, u0, u1);
      assert Sum(r2, 0, m + 1) == u0 + u1;
      assert Sum(r, 0, m + 1) == s1 + t1;
    }
  }

  /** The whole of r2 adds up to (p + q) times the whole of r. */
  lemma RecurrenceTotal(r: seq<real>, r2: seq<real>, p: real, q: real)
    requires PascalNext(r, r2, p, q)
    ensures Sum(r2, 0, |r2|) == (p + q) * Sum(r, 0, |r|)
  {
    var m := |r| - 1;
    RecurrencePrefix(r, r2, p, q, m);
    var s, t := Sum(r, 0, m), r[m];
    var a, b := Sum(r2, 0, |r2|), Sum(r, 0, |r|);
    assert Sum(r2, 0, m + 1) == p * s + q * (s + t);
    assert a == Sum(r2, 0, m + 1) + r2[m + 1];
    assert r2[m + 1] == p * t;
    assert b == s + t;
    ExpansionStep(p, q, s, t, a, b);
  }

  // ---------------------------------------------------------------------
  // Facts about the mass terms

  lemma ProductNonnegative(b: real, x: real, y: real)
    requires b >= 0.0 && x >= 0.0 && y >= 0.0
    ensures b * x * y >= 0.0
  {
    assert b * x >= 0.0;
  }

  lemma TermNonnegative(n: nat, j: nat, p: real, q: real)
    requires j <= n && 0.0 <= p && 0.0 <= q
    ensures Term(n, j, p, q) >= 0.0
  {
    PowBounds(p, j);
    PowBounds(q, n - j);
    ProductNonnegative(Choose(n, j), Pow(p, j), Pow(q, n - j));
  }

  lemma MoveLeft(b: real, c: real, x: real, y: real)
    ensures c * (b * x * y) == b * (c * x) * y
  {
  }

  lemma MoveRight(b: real, c: real, x: real, y: real)
    ensures c * (b * x * y) == b * x * (c * y)
  {
  }

  lemma SplitCoefficient(a: real, b: real, x: real, y: real)
    ensures (a + b) * x * y == a * x * y + b * x * y
  {
  }

  /** Pascal's rule lifted to the mass terms. */
  lemma TermPascal(n: nat, j: nat, p: real, q: real)
    requires 1 <= j < n
    ensures Term(n, j, p, q) == p * Term(n - 1, j - 1, p, q) + q * Term(n - 1, j, p, q)
  {
    PascalTerms(n, j, p, q, Term(n, j, p, q), Term(n - 1, j - 1, p, q), Term(n - 1, j, p, q));
  }

  lemma PascalTerms(n: nat, j: nat, p: real, q: real, t: real, t1: real, t2: real)
    requires 1 <= j < n
    requires t == Term(n, j, p, q) && t1 == Term(n - 1, j - 1, p, q) && t2 == Term(n - 1, j, p, q)
    ensures t == p * t1 + q * t2
  {
    var a, b := Choose(n - 1, j - 1), Choose(n - 1, j);
    var x, y := Pow(p, j - 1), Pow(q, n - 1 - j);
    TermUpperShape(n, j, p, q, a, b, x, y);
    TermLeftShape(n, j, p, q, a, x, y);
    PascalAlgebra(a, b, p, q, x, y, t, t1, t2);
  }

  lemma TermUpperShape(n: nat, j: nat, p: real, q: real, a: real, b: real, x: real, y: real)
    requires 1 <= j < n
    requires a == Choose(n - 1, j - 1) && b == Choose(n - 1, j)
    requires x == Pow(p, j - 1) && y == Pow(q, n - 1 - j)
    ensures Term(n, j, p, q) == (a + b) * (p * x) * (q * y)
    ensures Term(n - 1, j, p, q) == b * (p * x) * y
  {
    assert Choose(n, j) == a + b;
    assert Pow(p, j) == p * x;
    assert n - j == (n - 1 - j) + 1;
    assert Pow(q, n - j) == q * y;
  }

  lemma TermLeftShape(n: nat, j: nat, p: real, q: real, a: real, x: real, y: real)
    requires 1 <= j < n
    requires a == Choose(n - 1, j - 1)
    requires x == Pow(p, j - 1) && y == Pow(q, n - 1 - j)
    ensures Term(n - 1, j - 1, p, q) == a * x * (q * y)
  {
    assert (n - 1) - (j - 1) == (n - 1 - j) + 1;
  }

  lemma PascalAlgebra(a: real, b: real, p: real, q: real, x: real, y: real, t: real, t1: real, t2: real)
    requires t == (a + b) * (p * x) * (q * y)
    requires t1 == a * x * (q * y) && t2 == b * (p * x) * y
    ensures t == p * t1 + q * t2
  {
    SplitCoefficient(a, b, p * x, q * y);
    MoveLeft(a, p, x, q * y);
    MoveRight(b, q, p * x, y);
  }

  lemma TermLowEdge(n: nat, p: real, q: real)
    requires n >= 1
    ensures Term(n, 0, p, q) == q * Term(n - 1, 0, p, q)
  {
    assert Term(n, 0, p, q) == 1.0 * 1.0 * (q * Pow(q, n - 1));
  }

  lemma TermHighEdge(n: nat, p: real, q: real)
    requires n >= 1
    ensures Term(n, n, p, q) == p * Term(n - 1, n - 1, p, q)
  {
    assert Term(n, n, p, q) == 1.0 * (p * Pow(p, n - 1)) * 1.0;
  }

  /** j misses with miss chance q is n - j hits with hit chance p. */
  lemma TermMirror(n: nat, j: nat, p: real, q: real)
    requires j <= n
    ensures Term(n, j, q, p) == Term(n, n - j, p, q)
  {
    BinomSymmetric(n, j);
    ChooseIsBinom(n, j);
    ChooseIsBinom(n, n - j);
    var b, x, y := Choose(n, j), Pow(q, j), Pow(p, n - j);
    assert n - (n - j) == j;
    assert b * x * y == b * y * x;
  }

  // ---------------------------------------------------------------------
  // The binomial theorem and its consequences for the tail

  /** The binomial theorem: row n adds up to (p + q)^n. */
  lemma {:induction false} BinomialTheorem(n: nat, p: real, q: real)
    ensures Sum(Row(n, p, q), 0, n + 1) == Pow(p + q, n)
    decreases n
  {
    if n == 0 {
      RowZero(p, q);
    } else {
      BinomialTheorem(n - 1, p, q);
      BinomialStep(n, p, q);
    }
  }

  lemma RowZero(p: real, q: real)
    ensures Sum(Row(0, p, q), 0, 1) == 1.0
  {
    assert Row(0, p, q)[0] == Term(0, 0, p, q) == 1.0;
    assert Sum(Row(0, p, q), 0, 1) == Sum(Row(0, p, q), 0, 0) + Row(0, p, q)[0];
  }

  lemma BinomialStep(n: nat, p: real, q: real)
    requires n >= 1
    requires Sum(Row(n - 1, p, q), 0, n) == Pow(p + q, n - 1)
    ensures Sum(Row(n, p, q), 0, n + 1) == Pow(p + q, n)
  {
    var r, r2 := Row(n - 1, p, q), Row(n, p, q);
    RowPascal(n, p, q);
    RecurrenceTotal(r, r2, p, q);
    assert |r| == n && |r2| == n + 1;
    UnfoldPow(p + q, n, Sum(r, 0, n), Sum(r2, 0, n + 1));
  }

  lemma UnfoldPow(x: real, n: nat, s: real, s2: real)
    requires n >= 1 && s == Pow(x, n - 1) && s2 == x * s
    ensures s2 == Pow(x, n)
  {
  }

  /** Pascal's rule, row n against row n - 1. */
  lemma RowPascal(n: nat, p: real, q: real)
    requires n >= 1
    ensures PascalNext(Row(n - 1, p, q), Row(n, p, q), p, q)
  {
    RowEdges(n, p, q);
    RowInterior(n, p, q);
  }

  lemma RowEdges(n: nat, p: real, q: real)
    requires n >= 1
    ensures Row(n, p, q)[0] == q * Row(n - 1, p, q)[0]
    ensures Row(n, p, q)[n] == p * Row(n - 1, p, q)[n - 1]
  {
    TermLowEdge(n, p, q);
    TermHighEdge(n, p, q);
  }

  lemma RowInterior(n: nat, p: real, q: real)
    requires n >= 1
    ensures PascalInterior(Row(n - 1, p, q), Row(n, p, q), p, q)
  {
    var r, r2 := Row(n - 1, p, q), Row(n, p, q);
    forall j | 1 <= j < n
      ensures PascalAt(r, r2, p, q, j)
    {
      TermPascal(n, j, p, q);
    }
  }

  lemma {:induction false} PowOne(n: nat)
    ensures Pow(1.0, n) == 1.0
  {
    if n > 0 {
      PowOne(n - 1);
    }
  }

  /** With q = 1 - p the whole distribution has mass 1. */
  lemma TotalMass(n: nat, p: real)
    ensures Sum(Row(n, p, 1.0 - p), 0, n + 1) == 1.0
  {
    BinomialTheorem(n, p, 1.0 - p);
    PowOne(n);
  }

  /** Row n with the roles of p and q swapped is row n read backwards. */
  lemma RowMirror(n: nat, p: real, q: real)
    ensures forall j :: 0 <= j <= n ==> Row(n, q, p)[j] == Row(n, p, q)[n - j]
  {
    forall j | 0 <= j <= n
      ensures Row(n, q, p)[j] == Row(n, p, q)[n - j]
    {
      TermMirror(n, j, p, q);
    }
  }

  /** Summing miss counts lo .. hi - 1 is summing hit counts n + 1 - hi .. n - lo. */
  lemma SumMirror(n: nat, lo: nat, hi: nat, p: real, q: real)
    requires lo <= hi <= n + 1
    ensures Sum(Row(n, q, p), lo, hi) == Sum(Row(n, p, q), n + 1 - hi, n + 1 - lo)
  {
    RowMirror(n, p, q);
    SumReversed(Row(n, q, p), Row(n, p, q), lo, hi);
  }

  /** At least k successes is the complement of at most k - 1 successes. */
  lemma TailComplement(n: nat, k: nat, p: real)
    requires k <= n + 1
    ensures Tail(n, k, p) == 1.0 - Sum(Row(n, p, 1.0 - p), 0, k)
  {
    SumSplit(Row(n, p, 1.0 - p), 0, k, n + 1);
    TotalMass(n, p);
  }

  /** Every entry of a row with non-negative p and q is non-negative. */
  lemma RowNonnegative(n: nat, p: real, q: real)
    requires 0.0 <= p && 0.0 <= q
    ensures forall j :: 0 <= j <= n ==> Row(n, p, q)[j] >= 0.0
  {
    forall j | 0 <= j <= n
      ensures Row(n, p, q)[j] >= 0.0
    {
      TermNonnegative(n, j, p, q);
    }
  }

  /** The tail is a probability. */
  lemma TailBounds(n: nat, k: nat, p: real)
    requires 0.0 <= p <= 1.0
    ensures 0.0 <= Tail(n, k, p) <= 1.0
  {
    RowNonnegative(n, p, 1.0 - p);
    SumNonnegative(Row(n, p, 1.0 - p), k, n + 1);
    if k <= n + 1 {
      TailComplement(n, k, p);
      SumNonnegative(Row(n, p, 1.0 - p), 0, k);
    }
  }

  /** Asking for one more success drops exactly the mass at k. */
  lemma TailStep(n: nat, k: nat, p: real)
    requires k <= n
    ensures Tail(n, k, p) == Term(n, k, p, 1.0 - p) + Tail(n, k + 1, p)
  {
    SumSplit(Row(n, p, 1.0 - p), k, k + 1, n + 1);
  }

  /** The tail never grows as more successes are required. */
  lemma TailMonotone(n: nat, k: nat, p: real)
    requires 0.0 <= p <= 1.0
    ensures Tail(n, k + 1, p) <= Tail(n, k, p)
  {
    if k <= n {
      TailStep(n, k, p);
      TermNonnegative(n, k, p, 1.0 - p);
    }
  }
}
