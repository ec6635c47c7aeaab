/** BinomialRand of variables/discrete/BinomialRand.cpp: the number of trials
    n, the success probability p (forwarded to the Bernoulli variable B the
    sampler sums), the probability mass function P and the distribution
    function F. RandMath::binomialCoef and std::pow are read as the exact
    binomial coefficient and the exact power. */
module Binomial {
  import opened NumericMath

  /** x^k for a natural k. */
  function Power(x: real, k: nat): real {
    if k == 0 then 1.0 else x * Power(x, k - 1)
  }

  lemma {:induction false} PowerNonNegative(x: real, k: nat)
    requires x >= 0.0
    ensures Power(x, k) >= 0.0
  {
    if k > 0 {
      PowerNonNegative(x, k - 1);
    }
  }

  lemma {:induction false} PowerOfOne(k: nat)
    ensures Power(1.0, k) == 1.0
  {
    if k > 0 {
      PowerOfOne(k - 1);
    }
  }

  /** The binomial coefficient by Pascal's rule. */
  function Choose(n: nat, k: nat): nat {
    if k == 0 then 1
    else if n == 0 then 0
    else Choose(n - 1, k - 1) + Choose(n - 1, k)
  }

  lemma {:induction false} ChooseAbove(n: nat, k: nat)
    requires k > n
    ensures Choose(n, k) == 0
  {
    if n > 0 {
      ChooseAbove(n - 1, k - 1);
      ChooseAbove(n - 1, k);
    }
  }

  /** The k-th term of the expansion of (p + q)^n, zero outside 0..n. */
  function Term(n: nat, p: real, q: real, k: int): real {
    if k < 0 || k > n then 0.0
    else Choose(n, k) as real * Power(p, k) * Power(q, n - k)
  }

  /** f(0) + ... + f(m - 1). */
  function Sum(f: int -> real, m: nat): real {
    if m == 0 then 0.0 else Sum(f, m - 1) + f(m - 1)
  }

  /** The terms of the expansion of (p + q)^n, indexed by k. */
  function Terms(n: nat, p: real, q: real): int -> real {
    k => Term(n, p, q, k)
  }

  /** The sum of the terms 0 .. m - 1. */
  function Total(n: nat, p: real, q: real, m: nat): real {
    Sum(Terms(n, p, q), m)
  }

  lemma Regroup(c1: real, c2: real, p: real, q: real, pk1: real, qk1: real)
    ensures (c1 + c2) * (p * pk1) * (q * qk1) == p * (c1 * pk1 * (q * qk1)) + q * (c2 * (p * pk1) * qk1)
  {
    assert (c1 + c2) * (p * pk1) * (q * qk1) == c1 * (p * pk1) * (q * qk1) + c2 * (p * pk1) * (q * qk1);
  }

  lemma PascalFirst(n: nat, p: real, q: real)
    requires n >= 1
    ensures Term(n, p, q, 0) == q * Term(n - 1, p, q, 0)
  {
    var qn1 := Power(q, n - 1);
    assert Power(q, n) == q * qn1;
    assert Term(n, p, q, 0) == 1.0 * 1.0 * (q * qn1);
    assert Term(n - 1, p, q, 0) == 1.0 * 1.0 * qn1;
  }

  lemma PascalLast(n: nat, p: real, q: real)
    requires n >= 1
    ensures Term(n, p, q, n) == p * Term(n - 1, p, q, n - 1)
  {
    ChooseAbove(n - 1, n);
    var c := Choose(n - 1, n - 1) as real;
    assert Choose(n, n) as real == c;
    var pn1 := Power(p, n - 1);
    assert Power(p, n) == p * pn1;
    assert Term(n, p, q, n) == c * (p * pn1) * 1.0;
    assert Term(n - 1, p, q, n - 1) == c * pn1 * 1.0;
  }

  lemma PascalInner(n: nat, p: real, q: real, k: nat)
    requires 0 < k < n
    ensures Term(n, p, q, k) == p * Term(n - 1, p, q, k - 1) + q * Term(n - 1, p, q, k)
  {
    var c1, c2 := Choose(n - 1, k - 1) as real, Choose(n - 1, k) as real;
    assert Choose(n, k) as real == c1 + c2;
    var pk1, qk1 := Power(p, k - 1), Power(q, n - 1 - k);
    assert Power(p, k) == p * pk1;
    assert Power(q, n - k) == q * qk1;
    assert Term(n, p, q, k) == (c1 + c2) * (p * pk1) * (q * qk1);
    assert Term(n - 1, p, q, k - 1) == c1 * pk1 * (q * qk1);
    assert Term(n - 1, p, q, k) == c2 * (p * pk1) * qk1;
    Regroup(c1, c2, p, q, pk1, qk1);
  }

  /** Pascal's rule on terms: each term of (p + q)^n is p times a term of
      (p + q)^(n - 1) plus q times the next one. */
  lemma PascalTerm(n: nat, p: real, q: real, k: int)
    requires n >= 1
    ensures Term(n, p, q, k) == p * Term(n - 1, p, q, k - 1) + q * Term(n - 1, p, q, k)
  {
    if k < 0 || k > n {
      assert Term(n, p, q, k) == 0.0 && Term(n - 1, p, q, k - 1) == 0.0 && Term(n - 1, p, q, k) == 0.0;
    } else if k == 0 {
      PascalFirst(n, p, q);
      assert Term(n - 1, p, q, -1) == 0.0;
    } else if k == n {
      PascalLast(n, p, q);
      assert Term(n - 1, p, q, n) == 0.0;
    } else {
      PascalInner(n, p, q, k);
    }
  }

  lemma {:induction false} SumAdd(t: int -> real, v: int -> real, w: int -> real, m: nat)
    requires forall k {:trigger t(k)} :: 0 <= k < m ==> t(k) == v(k) + w(k)
    ensures Sum(t, m) == Sum(v, m) + Sum(w, m)
  {
    if m > 0 {
      SumAdd(t, v, w, m - 1);
    }
  }

  lemma Distribute(c: real, x: real, y: real)
    ensures c * (x + y) == c * x + c * y
  {
  }

  lemma {:induction false} SumScale(w: int -> real, u: int -> real, c: real, m: nat)
    requires forall k {:trigger w(k)} :: 0 <= k < m ==> w(k) == c * u(k)
    ensures Sum(w, m) == c * Sum(u, m)
  {
    if m > 0 {
      SumScale(w, u, c, m - 1);
      Distribute(c, Sum(u, m - 1), u(m - 1));
    }
  }

  lemma {:induction false} SumShift(v: int -> real, u: int -> real, c: real, m: nat)
    requires m >= 1 && u(-1) == 0.0
    requires forall k {:trigger v(k)} :: 0 <= k < m ==> v(k) == c * u(k - 1)
    ensures Sum(v, m) == c * Sum(u, m - 1)
  {
    if m == 1 {
      assert v(0) == c * 0.0;
    } else {
      SumShift(v, u, c, m - 1);
      Distribute(c, Sum(u, m - 2), u(m - 2));
    }
  }

  /** Summing t, where every t(k) is p * u(k - 1) + q * u(k), is p times a
      sum of u plus q times a sum of u one longer. */
  lemma {:induction false} SumSplit(t: int -> real, u: int -> real, p: real, q: real, m: nat)
    requires m >= 1 && u(-1) == 0.0
    requires forall k {:trigger t(k)} :: 0 <= k < m ==> t(k) == p * u(k - 1) + q * u(k)
    ensures Sum(t, m) == p * Sum(u, m - 1) + q * Sum(u, m)
  {
    var v := k => p * u(k - 1);
    var w := k => q * u(k);
    SumAdd(t, v, w, m);
    SumShift(v, u, p, m);
    SumScale(w, u, q, m);
  }

  /** SumSplit for sums that are known by other names: the conclusion is
      stated over x, x1 and x2 alone. */
  lemma SumSplitAs(t: int -> real, u: int -> real, p: real, q: real, m: nat, x: real, x1: real, x2: real)
    requires m >= 1 && u(-1) == 0.0
    requires forall k {:trigger t(k)} :: 0 <= k < m ==> t(k) == p * u(k - 1) + q * u(k)
    requires x == Sum(t, m) && x1 == Sum(u, m - 1) && x2 == Sum(u, m)
    ensures x == p * x1 + q * x2
  {
    SumSplit(t, u, p, q, m);
  }

  lemma PascalAll(n: nat, p: real, q: real, m: nat)
    requires n >= 1
    ensures Terms(n - 1, p, q)(-1) == 0.0
    ensures forall k {:trigger Terms(n, p, q)(k)} :: 0 <= k < m ==>
              Terms(n, p, q)(k) == p * Terms(n - 1, p, q)(k - 1) + q * Terms(n - 1, p, q)(k)
  {
    forall k | 0 <= k < m
      ensures Terms(n, p, q)(k) == p * Terms(n - 1, p, q)(k - 1) + q * Terms(n - 1, p, q)(k)
    {
      var t, u := Terms(n, p, q), Terms(n - 1, p, q);
      assert t(k) == Term(n, p, q, k) && u(k - 1) == Term(n - 1, p, q, k - 1) && u(k) == Term(n - 1, p, q, k);
      PascalTerm(n, p, q, k);
    }
  }

  /** Pascal's rule summed over the first m terms: the total for n is p times
      the total for n - 1 one term shorter plus q times the total for n - 1.
      The three totals are passed in as x, x1 and x2. */
  lemma {:induction false} SplitTotal(n: nat, p: real, q: real, m: nat, x: real, x1: real, x2: real)
    requires n >= 1 && m >= 1
    requires x == Total(n, p, q, m) && x1 == Total(n - 1, p, q, m - 1) && x2 == Total(n - 1, p, q, m)
    ensures x == p * x1 + q * x2
  {
    PascalAll(n, p, q, m);
    SumSplitAs(Terms(n, p, q), Terms(n - 1, p, q), p, q, m, x, x1, x2);
  }

  lemma Factor(p: real, q: real, total: real, a: real, b: real, x: real)
    requires total == p * a + q * b && a == x && b == x
    ensures total == (p + q) * x
  {
  }

  /** The term k = n + 1 of the expansion for n is zero, so it adds nothing. */
  lemma TotalPastEnd(n: nat, p: real, q: real, x1: real, x2: real)
    requires x1 == Total(n, p, q, n + 1) && x2 == Total(n, p, q, n + 2)
    ensures x2 == x1
  {
    ChooseAbove(n, n + 1);
    assert Terms(n, p, q)(n + 1) == 0.0;
  }

  /** The binomial theorem: the terms 0 .. n of the expansion add up to (p + q)^n. */
  lemma {:induction false} BinomialTheorem(n: nat, p: real, q: real)
    ensures Total(n, p, q, n + 1) == Power(p + q, n)
  {
    if n > 0 {
      var x, x1, x2, y := Total(n, p, q, n + 1), Total(n - 1, p, q, n), Total(n - 1, p, q, n + 1), Power(p + q, n - 1);
      SplitTotal(n, p, q, n + 1, x, x1, x2);
      TotalPastEnd(n - 1, p, q, x1, x2);
      BinomialTheorem(n - 1, p, q);
      Factor(p, q, x, x1, x2, y);
    } else {
      assert Terms(0, p, q)(0) == 1.0 * 1.0 * 1.0;
      assert Total(0, p, q, 1) == Sum(Terms(0, p, q), 0) + Terms(0, p, q)(0);
    }
  }

  lemma TermNonNegative(n: nat, p: real, q: real, k: int)
    requires p >= 0.0 && q >= 0.0
    ensures Term(n, p, q, k) >= 0.0
  {
    if 0 <= k <= n {
      PowerNonNegative(p, k);
      PowerNonNegative(q, n - k);
    }
  }

  lemma {:induction false} TotalMonotone(n: nat, p: real, q: real, m1: nat, m2: nat)
    requires p >= 0.0 && q >= 0.0 && m1 <= m2
    ensures 0.0 <= Total(n, p, q, m1) <= Total(n, p, q, m2)
    decreases m2
  {
    if m1 < m2 {
      TotalMonotone(n, p, q, m1, m2 - 1);
      TermNonNegative(n, p, q, m2 - 1);
    } else if m2 > 0 {
      TotalMonotone(n, p, q, m1 - 1, m2 - 1);
      TermNonNegative(n, p, q, m2 - 1);
    }
  }

  lemma {:induction false} TotalBeyond(n: nat, p: real, q: real, m: nat)
    requires m >= n + 1
    ensures Total(n, p, q, m) == Total(n, p, q, n + 1)
  {
    if m > n + 1 {
      TotalBeyond(n, p, q, m - 1);
    }
  }

  /** setNumber's std::max(number, 1). */
  function TrialCount(number: int): (r: int)
    ensures r >= 1 && r >= number
    ensures number >= 1 <==> r == number
    ensures number < 1 ==> r == 1
  {
    if number < 1 then 1 else number
  }

  /** setProbability's clamp: std::min(std::max(q, MIN_POSITIVE), 1.0). */
  function ClampProbability(q: real): (r: real)
    ensures MinPositive <= r <= 1.0
    ensures MinPositive <= q <= 1.0 ==> r == q
    ensures q < MinPositive ==> r == MinPositive
    ensures q > 1.0 ==> r == 1.0
  {
    Min(Max(q, MinPositive), 1.0)
  }

  class BinomialRand {
    var n: int
    var p: real
    /** The probability held by the Bernoulli member B. */
    var bernoulliP: real

    predicate Valid()
      reads this
    {
      n >= 1 && MinPositive <= p <= 1.0 && bernoulliP == p
    }

    /** The constructor sets the number of trials, then the probability. */
    constructor(number: int, probability: real)
      ensures Valid()
      ensures n == TrialCount(number) && p == ClampProbability(probability)
    {
      n := TrialCount(number);
      p := ClampProbability(probability);
      bernoulliP := p;
    }

    /** setNumber: n = std::max(number, 1); p is untouched. */
    method SetNumber(number: int)
      requires Valid()
      modifies this`n
      ensures Valid()
      ensures n == TrialCount(number)
    {
      n := TrialCount(number);
    }

    /** setProbability: p is clamped to [MIN_POSITIVE, 1] and forwarded to B. */
    method SetProbability(probability: real)
      requires Valid()
      modifies this`p, this`bernoulliP
      ensures Valid()
      ensures p == ClampProbability(probability) && bernoulliP == p
    {
      p := ClampProbability(probability);
      bernoulliP := p;
    }

    /** P: zero outside 0..n, the binomial term C(n, k) p^k (1 - p)^(n - k) inside. */
    function P(k: int): (r: real)
      reads this
      ensures k < 0 || k > n ==> r == 0.0
    {
      if k < 0 || k > n then 0.0
      else Term(n, p, 1.0 - p, k)
    }

    /** Every mass lies in [0, 1]. */
    lemma MassBounds(k: int)
      requires Valid()
      ensures 0.0 <= P(k) <= 1.0
    {
      if 0 <= k <= n {
        TermNonNegative(n, p, 1.0 - p, k);
        MassesSumToOne();
        SumPIsTotal(n + 1);
        SumPIsTotal(k);
        SumPIsTotal(k + 1);
        TotalMonotone(n, p, 1.0 - p, 0, k);
        TotalMonotone(n, p, 1.0 - p, k + 1, n + 1);
      }
    }

    /** P(0) + ... + P(m - 1). */
    function SumP(m: nat): real
      reads this
    {
      if m == 0 then 0.0 else SumP(m - 1) + P(m - 1)
    }

    lemma {:induction false} SumPIsTotal(m: nat)
      requires n >= 0
      ensures SumP(m) == Total(n, p, 1.0 - p, m)
    {
      if m > 0 {
        SumPIsTotal(m - 1);
      }
    }

    /** P is a probability mass function: the masses of 0..n add up to 1. */
    lemma MassesSumToOne()
      requires n >= 0
      ensures SumP(n + 1) == 1.0
    {
      SumPIsTotal(n + 1);
      BinomialTheorem(n, p, 1.0 - p);
      PowerOfOne(n);
    }

    /** F as written: the argument itself, not P(X <= x), so it leaves [0, 1]
        exactly where its argument does. */
    function F(x: real): (r: real)
      ensures r < 0.0 <==> x < 0.0
      ensures r > 1.0 <==> x > 1.0
    {
      x
    }

    /** F as written leaves [0, 1] for x = 2, so it is no distribution function. */
    lemma FIsNotADistributionFunction()
      ensures F(2.0) > 1.0
    {
    }

    /** The distribution function F was evidently meant to be: P(X <= x), the
        sum of the masses of 0 .. floor(x). */
    function Cdf(x: real): (r: real)
      reads this
      requires Valid()
      ensures 0.0 <= r <= 1.0
      ensures x < 0.0 ==> r == 0.0
      ensures x >= n as real ==> r == 1.0
    {
      if x < 0.0 then 0.0
      else
        PartialSumBounds(x.Floor + 1);
        SumP(x.Floor + 1)
    }

    /** Every partial sum of the masses lies in [0, 1] and is 1 once it
        covers 0..n. */
    lemma PartialSumBounds(m: nat)
      requires Valid()
      ensures 0.0 <= SumP(m) <= 1.0
      ensures m >= n + 1 ==> SumP(m) == 1.0
    {
      SumPIsTotal(m);
      SumPIsTotal(n + 1);
      MassesSumToOne();
      TotalMonotone(n, p, 1.0 - p, 0, m);
      if m <= n + 1 {
        TotalMonotone(n, p, 1.0 - p, m, n + 1);
      } else {
        TotalBeyond(n, p, 1.0 - p, m);
      }
    }

    /** The corrected F never decreases. */
    lemma CdfMonotone(x: real, y: real)
      requires Valid() && x <= y
      ensures Cdf(x) <= Cdf(y)
    {
      if x >= 0.0 {
        var mx: nat, my: nat := x.Floor + 1, y.Floor + 1;
        SumPIsTotal(mx);
        SumPIsTotal(my);
        TotalMonotone(n, p, 1.0 - p, mx, my);
      }
    }

    /** At an integer k >= 0 the corrected F jumps by exactly P(k). */
    lemma CdfJump(k: nat)
      requires Valid()
      ensures Cdf(k as real) == Cdf(k as real - 1.0) + P(k)
    {
      assert (k as real).Floor == k;
      assert Cdf(k as real) == SumP(k + 1) == SumP(k) + P(k);
      if k > 0 {
        assert (k as real - 1.0).Floor == k - 1;
        assert Cdf(k as real - 1.0) == SumP(k);
      }
    }
  }
}
