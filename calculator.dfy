/** The dice-probability engine: the two summation strategies, the status
    mapping and the dispatch between them. Probabilities are exact reals. */
module Calculator {
  import opened Combinatorics
  import opened BinomialSum
  import JavaInt

  /** The status selected for a roll. */
  datatype Status = Normal | Blessed | Cursed

  /** `getStatus`: the denominator of the per-die success chance. */
  function SuccessDenominator(s: Status): (d: nat)
    ensures d >= 1
    ensures d * SuccessFaces(s) == 6
  {
    match s
    case Normal => 3
    case Cursed => 6
    case Blessed => 2
  }

  /** How many of the six faces of a die count as a success: normally 5 and 6,
      one more face when blessed, only 6 when cursed. */
  function SuccessFaces(s: Status): nat
  {
    match s
    case Normal => 2
    case Blessed => 3
    case Cursed => 1
  }

  /** The per-die hit chance 1 / status. */
  function HitChance(status: int): (p: real)
    requires status >= 1
    ensures 0.0 < p <= 1.0
  {
    1.0 / (status as real)
  }

  /** The denominator of every status gives the chance of rolling one of its
      success faces, and blessing helps while cursing hurts. */
  lemma StatusHitChance(s: Status)
    ensures HitChance(SuccessDenominator(s)) == (SuccessFaces(s) as real) / 6.0
    ensures HitChance(SuccessDenominator(Cursed)) < HitChance(SuccessDenominator(Normal))
                                                  < HitChance(SuccessDenominator(Blessed))
  {
  }

  /** What the loop of `calculateBySuccess` adds up: the mass at
      k .. n - 1 successes, plus the all-hits term p^n. */
  function SuccessBranchValue(n: nat, k: nat, p: real): real
  {
    Sum(Row(n, p, 1.0 - p), k, n) + Pow(p, n)
  }

  /** What `calculateByMiss` returns: one minus the mass at n - k + 1 .. n - 1
      misses, minus the all-misses term (1 - p)^n. */
  function MissBranchValue(n: nat, k: nat, p: real): real
    requires k <= n + 1
  {
    1.0 - (Sum(Row(n, 1.0 - p, p), n - k + 1, n) + Pow(1.0 - p, n))
  }

  /** The last entry of a row is the all-hits term. */
  lemma RowLast(n: nat, p: real, q: real)
    ensures Row(n, p, q)[n] == Pow(p, n)
  {
    assert Row(n, p, q)[n] == 1.0 * Pow(p, n) * 1.0;
  }

  /** Entry j of a row is the term the loops add for j. */
  lemma RowEntry(n: nat, j: nat, p: real, q: real, c: int, t: real)
    requires j < n && c == Binom(n, j)
    requires t == (c as real) * Pow(p, j) * Pow(q, n - j)
    ensures Row(n, p, q)[j] == t
  {
    ChooseIsBinom(n, j);
  }

  /** Summing success counts k .. n - 1 and adding p^n gives the tail. */
  lemma SuccessBranchIsTail(n: nat, k: nat, p: real)
    requires k <= n
    ensures SuccessBranchValue(n, k, p) == Tail(n, k, p)
  {
    RowLast(n, p, 1.0 - p);
    assert Sum(Row(n, p, 1.0 - p), k, n + 1)
        == Sum(Row(n, p, 1.0 - p), k, n) + Row(n, p, 1.0 - p)[n];
  }

  /** Taking one minus the mass of too many misses also gives the tail (the
      binomial theorem is what makes the complement exact). */
  lemma MissBranchIsTail(n: nat, k: nat, p: real)
    requires 1 <= k <= n + 1
    ensures MissBranchValue(n, k, p) == Tail(n, k, p)
  {
    var q := 1.0 - p;
    assert 1.0 - q == p;
    RowLast(n, q, p);
    assert Sum(Row(n, q, p), n - k + 1, n + 1)
        == Sum(Row(n, q, p), n - k + 1, n) + Row(n, q, p)[n];
    SumMirror(n, n - k + 1, n + 1, p, q);
    TailComplement(n, k, p);
  }

  /** With no successes needed, the complement loop is empty and the result
      is one minus the all-misses term: the chance of at least one success. */
  lemma MissBranchZero(n: nat, p: real)
    ensures MissBranchValue(n, 0, p) == 1.0 - Pow(1.0 - p, n)
    ensures n >= 1 ==> MissBranchValue(n, 0, p) == Tail(n, 1, p)
  {
    if n >= 1 {
      MissBranchIsTail(n, 1, p);
    }
  }

  /** The two strategies agree exactly whenever at least one success is
      needed and it is possible. */
  lemma BranchesAgree(n: nat, k: nat, p: real)
    requires 1 <= k <= n
    ensures SuccessBranchValue(n, k, p) == MissBranchValue(n, k, p)
  {
    SuccessBranchIsTail(n, k, p);
    MissBranchIsTail(n, k, p);
  }

  /** `calculateBySuccess`: sums the probability of exactly j successes for
      j = successNeeded .. dice - 1, then adds the chance that every die hits. */
  method CalculateBySuccess(dice: nat, successNeeded: nat, status: int) returns (result: real)
    requires status >= 1
    ensures result == SuccessBranchValue(dice, successNeeded, HitChance(status))
    ensures successNeeded <= dice ==> result == Tail(dice, successNeeded, HitChance(status))
    ensures successNeeded <= dice ==> 0.0 <= result <= 1.0
  {
    var curChoose := successNeeded;
    var hitChance := HitChance(status);
    var missChance := 1.0 - hitChance;
    result := 0.0;
    ghost var row := Row(dice, hitChance, missChance);

    while curChoose < dice
      invariant successNeeded <= dice ==> successNeeded <= curChoose <= dice
      invariant successNeeded > dice ==> curChoose == successNeeded && result == 0.0
      invariant curChoose <= dice ==> result == Sum(row, successNeeded, curChoose)
    {
      var c := NChooseK(dice, curChoose);
      var term := (c as real) * Pow(hitChance, curChoose) * Pow(missChance, dice - curChoose);
      RowEntry(dice, curChoose, hitChance, missChance, c, term);
      assert Sum(row, successNeeded, curChoose + 1) == Sum(row, successNeeded, curChoose) + row[curChoose];
      result := result + term;
      curChoose := curChoose + 1;
    }
    result := result + Pow(hitChance, dice);

    if successNeeded <= dice {
      SuccessBranchIsTail(dice, successNeeded, hitChance);
      TailBounds(dice, successNeeded, hitChance);
    }
  }

  /** `calculateByMiss`: sums the probability of exactly j misses for
      j = dice - successNeeded + 1 .. dice - 1 and the chance that every die
      misses, and returns one minus that. */
  method CalculateByMiss(dice: nat, successNeeded: nat, status: int) returns (result: real)
    requires successNeeded <= dice + 1
    requires status >= 1
    ensures result == MissBranchValue(dice, successNeeded, HitChance(status))
    ensures successNeeded >= 1 ==> result == Tail(dice, successNeeded, HitChance(status))
    ensures successNeeded == 0 ==> result == 1.0 - Pow(1.0 - HitChance(status), dice)
    ensures 0.0 <= result <= 1.0
  {
    var curChoose := dice - successNeeded + 1;
    var hitChance := HitChance(status);
    var missChance := 1.0 - hitChance;
    var sum := 0.0;
    ghost var start := curChoose;
    ghost var row := Row(dice, missChance, hitChance);

    while curChoose < dice
      invariant start <= curChoose <= dice + 1
      invariant start <= dice ==> curChoose <= dice
      invariant start > dice ==> sum == 0.0
      invariant curChoose <= dice ==> sum == Sum(row, start, curChoose)
    {
      var c := NChooseK(dice, curChoose);
      var term := (c as real) * Pow(missChance, curChoose) * Pow(hitChance, dice - curChoose);
      RowEntry(dice, curChoose, missChance, hitChance, c, term);
      assert Sum(row, start, curChoose + 1) == Sum(row, start, curChoose) + row[curChoose];
      sum := sum + term;
      curChoose := curChoose + 1;
    }
    sum := sum + Pow(missChance, dice);
    result := 1.0 - sum;

    if successNeeded >= 1 {
      MissBranchIsTail(dice, successNeeded, hitChance);
      TailBounds(dice, successNeeded, hitChance);
    } else {
      MissBranchZero(dice, hitChance);
      PowBounds(missChance, dice);
    }
  }

  /** The strategy `performCalculation` picks. */
  datatype Branch = NoChance | BySuccess | ByMiss

  /** The early exit and the choice of the strategy that sums fewer terms:
      by success sums the dice - K + 1 outcomes with at least K successes, by
      miss the K outcomes with fewer. */
  function ChooseBranch(dice: nat, successNeeded: nat): (b: Branch)
    ensures b == NoChance <==> dice == 0 || successNeeded > dice
    ensures b == BySuccess <==> 1 <= dice && dice / 2 < successNeeded <= dice
    ensures b == ByMiss <==> 1 <= dice && successNeeded <= dice / 2
    ensures b == BySuccess ==> dice - successNeeded + 1 <= successNeeded
    ensures b == ByMiss ==> successNeeded < dice - successNeeded + 1
  {
    if dice == 0 || successNeeded > dice then NoChance
    else if successNeeded > dice / 2 then BySuccess
    else ByMiss
  }

  /** Every binomial coefficient either strategy asks for, once dispatched,
      has k above n / 2, so `nChooseK` always takes its first arm. */
  lemma DispatchChoosesUpperHalf(dice: nat, successNeeded: nat, j: nat)
    requires || (ChooseBranch(dice, successNeeded) == BySuccess && successNeeded <= j < dice)
             || (ChooseBranch(dice, successNeeded) == ByMiss && dice - successNeeded + 1 <= j < dice)
    ensures dice / 2 < j < dice
    ensures Bounds(dice, j) == (j + 1, dice - j)
  {
  }

  /** The chance `performCalculation` reports: the probability of at least
      max(successNeeded, 1) successes (zero when no dice are rolled or more
      successes are needed than dice). */
  function Chance(dice: nat, successNeeded: nat, status: Status): real
  {
    Tail(dice, Max(successNeeded, 1), HitChance(SuccessDenominator(status)))
  }

  /** Up to 18 dice, every coefficient the dispatched strategy asks for is
      computed exactly even on 32-bit `int`. */
  lemma DispatchedCoefficientsExact(dice: nat, successNeeded: nat, j: nat)
    requires dice <= 18
    requires || (ChooseBranch(dice, successNeeded) == BySuccess && successNeeded <= j < dice)
             || (ChooseBranch(dice, successNeeded) == ByMiss && dice - successNeeded + 1 <= j < dice)
    ensures JavaInt.JavaChoose(dice, j) == JavaInt.Some(Binom(dice, j))
  {
    DispatchChoosesUpperHalf(dice, successNeeded, j);
    JavaInt.ExactUpTo18Dice(dice, j);
  }

  /** With 20 dice and 11 successes needed the dispatch takes
      `calculateBySuccess`, whose first coefficient overflows on 32-bit `int`. */
  lemma OverflowReachable(dice: nat, successNeeded: nat)
    requires dice == 20 && successNeeded == 11
    ensures ChooseBranch(dice, successNeeded) == BySuccess
    ensures JavaInt.JavaChoose(dice, successNeeded) == JavaInt.Some(2259)
    ensures Binom(dice, successNeeded) == 167960
  {
    JavaInt.OverflowAtTwentyDice(dice, successNeeded);
  }

  /** The early exit returns exactly what the tail gives for those inputs. */
  lemma TailBeyondDice(n: nat, k: nat, p: real)
    requires k > n
    ensures Tail(n, k, p) == 0.0
  {
  }

  /** `performCalculation` without the widget reads and the label update. */
  method PerformCalculation(dice: nat, successNeeded: nat, status: Status) returns (result: real)
    ensures result == Chance(dice, successNeeded, status)
    ensures dice == 0 || successNeeded > dice ==> result == 0.0
    ensures 0.0 <= result <= 1.0
  {
    var s := SuccessDenominator(status);
    var branch := ChooseBranch(dice, successNeeded);
    if branch == NoChance {
      result := 0.0;
      TailBeyondDice(dice, Max(successNeeded, 1), HitChance(s));
    } else if branch == BySuccess {
      result := CalculateBySuccess(dice, successNeeded, s);
    } else {
      result := CalculateByMiss(dice, successNeeded, s);
      if successNeeded == 0 {
        MissBranchZero(dice, HitChance(s));
      }
    }
  }

  /** The reported chance is a probability. */
  lemma ChanceBounds(dice: nat, successNeeded: nat, status: Status)
    ensures 0.0 <= Chance(dice, successNeeded, status) <= 1.0
  {
    TailBounds(dice, Max(successNeeded, 1), HitChance(SuccessDenominator(status)));
  }

  /** Needing more successes never makes the roll more likely to succeed. */
  lemma ChanceMonotone(dice: nat, successNeeded: nat, status: Status)
    ensures Chance(dice, successNeeded + 1, status) <= Chance(dice, successNeeded, status)
  {
    var p := HitChance(SuccessDenominator(status));
    if successNeeded >= 1 {
      TailMonotone(dice, successNeeded, p);
    }
  }

  /** With no successes needed the result is not 1 but the chance of at least
      one success, which falls short of 1 by the all-misses term. */
  lemma ZeroNeededIsAtLeastOne(dice: nat, status: Status)
    requires dice >= 1
    ensures Chance(dice, 0, status)
         == 1.0 - Pow(1.0 - HitChance(SuccessDenominator(status)), dice)
  {
    MissBranchZero(dice, HitChance(SuccessDenominator(status)));
  }

  /** No dice, or more successes needed than dice: no chance. */
  lemma KnownImpossible()
    ensures Chance(0, 1, Normal) == 0.0
    ensures Chance(5, 6, Normal) == 0.0
  {
    TailBeyondDice(0, 1, 1.0 / 3.0);
    TailBeyondDice(5, 6, 1.0 / 3.0);
  }

  /** One normal die: one success in three. */
  lemma KnownOneDie()
    ensures Chance(1, 1, Normal) == 1.0 / 3.0
  {
    var p := 1.0 / 3.0;
    var r := Row(1, p, 1.0 - p);
    assert HitChance(SuccessDenominator(Normal)) == p;
    assert Chance(1, 1, Normal) == Tail(1, 1, p);
    assert Tail(1, 1, p) == Sum(r, 1, 2);
    assert Sum(r, 1, 2) == r[1];
    RowLast(1, p, 1.0 - p);
    assert Pow(p, 1) == p;
  }

  lemma PowSmall(x: real)
    ensures Pow(x, 1) == x
    ensures Pow(x, 2) == x * x
    ensures Pow(x, 3) == x * x * x
  {
    assert Pow(x, 1) == x * Pow(x, 0);
    assert Pow(x, 2) == x * Pow(x, 1);
    assert Pow(x, 3) == x * Pow(x, 2);
  }

  lemma RowTwoTail(p: real, q: real)
    ensures Sum(Row(2, p, q), 1, 3) == 2.0 * p * q + p * p
  {
    var r := Row(2, p, q);
    assert Sum(r, 1, 3) == r[1] + r[2];
    assert Choose(2, 1) == 2.0;
    assert r[1] == 2.0 * Pow(p, 1) * Pow(q, 1);
    RowLast(2, p, q);
    PowSmall(p);
    PowSmall(q);
  }

  lemma RowThreeTail(p: real, q: real)
    ensures Sum(Row(3, p, q), 2, 4) == 3.0 * (p * p) * q + p * p * p
  {
    var r := Row(3, p, q);
    assert Sum(r, 2, 4) == r[2] + r[3];
    assert Choose(3, 2) == Choose(2, 1) + Choose(2, 2) == 3.0;
    assert r[2] == 3.0 * Pow(p, 2) * Pow(q, 1);
    RowLast(3, p, q);
    PowSmall(p);
    PowSmall(q);
  }

  /** Two normal dice, one success needed: 1 - (2/3)^2 = 5/9. */
  lemma KnownTwoDice()
    ensures Chance(2, 1, Normal) == 5.0 / 9.0
  {
    RowTwoTail(1.0 / 3.0, 2.0 / 3.0);
    assert 1.0 - 1.0 / 3.0 == 2.0 / 3.0;
  }

  /** Three blessed dice, two successes needed: 3/8 + 1/8 = 1/2. */
  lemma KnownThreeDice()
    ensures Chance(3, 2, Blessed) == 1.0 / 2.0
  {
    RowThreeTail(1.0 / 2.0, 1.0 / 2.0);
    assert 1.0 - 1.0 / 2.0 == 1.0 / 2.0;
  }
}
