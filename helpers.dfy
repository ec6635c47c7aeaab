/** The scalar helpers of external/helpers.hpp over a small model of IEEE-754
    values: NaN, the two infinities, negative zero and every other value as an
    exact real (Finite(0.0) is positive zero). */
module Helpers {

  datatype Double = NaN | PosInf | NegInf | NegZero | Finite(v: real)

  /** The real value of a number that is neither NaN nor infinite. */
  function Real(x: Double): real
    requires x.NegZero? || x.Finite?
  {
    if x.NegZero? then 0.0 else x.v
  }

  /** IEEE equality: NaN equals nothing, not even itself; the two zeros are equal. */
  predicate Eq(x: Double, y: Double) {
    match (x, y)
    case (PosInf, PosInf) => true
    case (NegInf, NegInf) => true
    case (NegZero, NegZero) => true
    case (NegZero, Finite(w)) => w == 0.0
    case (Finite(u), NegZero) => u == 0.0
    case (Finite(u), Finite(w)) => u == w
    case _ => false
  }

  /** IEEE ordering: every comparison with NaN is false. */
  predicate Lt(x: Double, y: Double) {
    match (x, y)
    case (NaN, _) => false
    case (_, NaN) => false
    case (NegInf, NegInf) => false
    case (NegInf, _) => true
    case (_, PosInf) => !x.PosInf?
    case (PosInf, _) => false
    case (_, NegInf) => false
    case _ => Real(x) < Real(y)
  }

  predicate Le(x: Double, y: Double) {
    Lt(x, y) || Eq(x, y)
  }

  /** Unary minus flips the sign, zeros and infinities included. */
  function Neg(x: Double): Double {
    match x
    case NaN => NaN
    case PosInf => NegInf
    case NegInf => PosInf
    case NegZero => Finite(0.0)
    case Finite(u) => if u == 0.0 then NegZero else Finite(-u)
  }

  const Zero: Double := Finite(0.0)

  /** helpers::abs: both zeros give +0, a negative value is negated, anything
      else (NaN included, as every comparison with it is false) is returned. */
  function Abs(x: Double): (r: Double)
    ensures x.NaN? <==> r.NaN?
    ensures !r.NaN? ==> !Lt(r, Zero)
    ensures r == x || r == Neg(x)
    ensures Eq(x, Zero) ==> r == Zero
    ensures !x.NaN? ==> Eq(r, x) || Eq(r, Neg(x))
  {
    if Eq(x, Zero) then Zero
    else if Lt(x, Zero) then Neg(x)
    else x
  }

  /** helpers::abs of a finite value, as a real; also the std::fabs of the
      solvers. */
  function AbsFinite(x: real): (r: real)
    ensures r >= 0.0 && (r == x || r == -x)
  {
    if x < 0.0 then -x else x
  }

  /** On a finite value helpers::abs is AbsFinite. */
  lemma AbsOfFinite(x: real)
    ensures Abs(Finite(x)) == Finite(AbsFinite(x))
  {
  }

  /** helpers::mantissa, which only stops for a positive finite input. */
  function Mantissa(x: real): (r: real)
    requires x > 0.0
    ensures 1.0 <= r <= 10.0
    decreases MantissaRank(x)
  {
    if x < 1.0 then
      RankShrinks(x);
      Mantissa(x * 10.0)
    else if x > 10.0 then
      RankShrinks(x);
      Mantissa(x / 10.0)
    else
      x
  }

  /** How far a positive number is from [1, 10], as a termination measure. */
  function MantissaRank(x: real): int
    requires x > 0.0
  {
    if x < 1.0 then (1.0 / x).Floor else if x > 10.0 then x.Floor else 0
  }

  lemma RankShrinks(x: real)
    requires x > 0.0
    ensures x < 1.0 ==> 0 <= MantissaRank(x * 10.0) < MantissaRank(x)
    ensures x > 10.0 ==> 0 <= MantissaRank(x / 10.0) < MantissaRank(x)
  {
    if x < 1.0 {
      RankShrinksBelow(x);
    } else if x > 10.0 {
      RankShrinksAbove(x);
    }
  }

  lemma RankShrinksBelow(x: real)
    requires 0.0 < x < 1.0
    ensures 0 <= MantissaRank(x * 10.0) < MantissaRank(x)
  {
    var y := 1.0 / x;
    assert y * x == 1.0;
    assert y > 1.0;
    assert 1.0 / (x * 10.0) == y / 10.0;
    if x * 10.0 < 1.0 {
      assert y > 10.0;
      assert (y / 10.0).Floor as real <= y / 10.0;
      assert y.Floor as real > y - 1.0;
    }
  }

  lemma RankShrinksAbove(x: real)
    requires x > 10.0
    ensures 0 <= MantissaRank(x / 10.0) < MantissaRank(x)
  {
    var y := x / 10.0;
    assert y > 1.0;
    if y > 10.0 {
      assert y.Floor as real <= y;
      assert x.Floor as real > x - 1.0;
    }
  }

  /** 10^k for any integer k. */
  function Pow10(k: int): (r: real)
    ensures r > 0.0
    decreases if k < 0 then -k else k
  {
    if k == 0 then 1.0
    else if k > 0 then 10.0 * Pow10(k - 1)
    else Pow10(k + 1) / 10.0
  }

  lemma ScaleByTen(x: real, k: int)
    ensures x * 10.0 * Pow10(k) == x * Pow10(k + 1)
    ensures x / 10.0 * Pow10(k) == x * Pow10(k - 1)
  {
    var p := Pow10(k - 1);
    assert Pow10(k) == 10.0 * p;
    assert Pow10(k + 1) == 10.0 * Pow10(k);
  }

  /** The power of ten by which Mantissa rescales x: the number of
      multiplications by 10 minus the number of divisions by 10. */
  ghost function MantissaShift(x: real): int
    requires x > 0.0
    decreases MantissaRank(x)
  {
    if x < 1.0 then
      RankShrinks(x);
      MantissaShift(x * 10.0) + 1
    else if x > 10.0 then
      RankShrinks(x);
      MantissaShift(x / 10.0) - 1
    else
      0
  }

  /** Mantissa only rescales its input by a power of ten. */
  lemma {:induction false} MantissaScales(x: real)
    requires x > 0.0
    ensures Mantissa(x) == x * Pow10(MantissaShift(x))
    decreases MantissaRank(x), 1
  {
    if x < 1.0 {
      MantissaScalesUp(x);
    } else if x > 10.0 {
      MantissaScalesDown(x);
    }
  }

  /** The step below 1: one multiplication by 10, then the rest. */
  lemma {:induction false} MantissaScalesUp(x: real)
    requires 0.0 < x < 1.0
    ensures Mantissa(x) == x * Pow10(MantissaShift(x))
    decreases MantissaRank(x), 0
  {
    RankShrinksBelow(x);
    var y := x * 10.0;
    assert Mantissa(x) == Mantissa(y) && MantissaShift(x) == MantissaShift(y) + 1;
    MantissaScales(y);
    ScaleUp(x, Mantissa(y), MantissaShift(y));
  }

  /** The step above 10: one division by 10, then the rest. */
  lemma {:induction false} MantissaScalesDown(x: real)
    requires x > 10.0
    ensures Mantissa(x) == x * Pow10(MantissaShift(x))
    decreases MantissaRank(x), 0
  {
    RankShrinksAbove(x);
    var y := x / 10.0;
    assert Mantissa(x) == Mantissa(y) && MantissaShift(x) == MantissaShift(y) - 1;
    MantissaScales(y);
    ScaleDown(x, Mantissa(y), MantissaShift(y));
  }

  lemma ScaleUp(x: real, m: real, k: int)
    requires m == x * 10.0 * Pow10(k)
    ensures m == x * Pow10(k + 1)
  {
    ScaleByTen(x, k);
  }

  lemma ScaleDown(x: real, m: real, k: int)
    requires m == x / 10.0 * Pow10(k)
    ensures m == x * Pow10(k - 1)
  {
    ScaleByTen(x, k);
  }

  newtype int64 = x: int | -0x8000_0000_0000_0000 <= x < 0x8000_0000_0000_0000

  /** C++ `x % 2`, which truncates toward zero (Dafny's % does not). */
  function CRem2(x: int): (r: int)
    ensures -1 <= r <= 1
    ensures r == 0 <==> x % 2 == 0
  {
    if x >= 0 then x % 2 else -((-x) % 2)
  }

  /** The lowest bit of x in two's complement, as `x & 1U` reads it. */
  function LowBit(x: int64): (r: bv64)
    ensures r == 0 || r == 1
  {
    ((x as int % 0x1_0000_0000_0000_0000) as bv64) & 1
  }

  /** helpers::is_odd: the low bit of the two's-complement word is set
      exactly for the odd values, negative ones included. */
  function IsOdd(x: int64): (r: bool)
    ensures r <==> (x as int) % 2 == 1
  {
    var u := x as int % 0x1_0000_0000_0000_0000;
    assert u % 2 == (x as int) % 2;
    LowBitOfUnsigned(u);
    LowBit(x) != 0
  }

  /** The alternative definition kept in a comment next to is_odd agrees. */
  lemma IsOddByRemainder(x: int64)
    ensures IsOdd(x) <==> CRem2(x as int) != 0
  {
  }

  lemma LowBitOfUnsigned(u: int)
    requires 0 <= u < 0x1_0000_0000_0000_0000
    ensures ((u as bv64) & 1 != 0) <==> u % 2 == 1
  {
    assert (u as bv64) & 1 == (u as bv64) % 2;
    assert ((u as bv64) % 2) as int == u % 2;
  }

  /** helpers::is_nan, written as x != x. */
  predicate IsNan(x: Double) {
    !Eq(x, x)
  }

  predicate IsPosInf(x: Double) {
    Eq(x, PosInf)
  }

  predicate IsNegInf(x: Double) {
    Eq(x, NegInf)
  }

  predicate IsInf(x: Double) {
    IsNegInf(x) || IsPosInf(x)
  }

  predicate IsFinite(x: Double) {
    !IsNan(x) && !IsInf(x)
  }

  /** `x != x` singles out NaN, and the infinity tests single out the infinities. */
  lemma Classification(x: Double)
    ensures IsNan(x) <==> x.NaN?
    ensures IsPosInf(x) <==> x.PosInf?
    ensures IsNegInf(x) <==> x.NegInf?
    ensures IsInf(x) <==> x.PosInf? || x.NegInf?
    ensures IsFinite(x) <==> x.Finite? || x.NegZero?
  {
  }
}
