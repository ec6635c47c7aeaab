/** The compile-time floor of external/floor.hpp: truncate toward zero, then
    subtract one when a negative input had a fractional part, with guards for
    NaN, the infinities, values below the smallest normal number and values so
    large that they are already integers. */
module Floor {
  import opened Helpers

  /** The three specialised instantiations: float, double and long double
      (the x87 80-bit format, whose smallest normal number is 2^-16382). */
  datatype FloatType = Single | Binary64 | Extended

  function Pow2(n: nat): (r: real)
    ensures r >= 1.0
  {
    if n == 0 then 1.0 else 2.0 * Pow2(n - 1)
  }

  /** The magnitude from which every value of the type is an integer. */
  function Threshold(t: FloatType): real {
    match t
    case Single => 8388608.0
    case Binary64 => 4503599627370496.0
    case Extended => 9223372036854775808.0
  }

  /** numeric_limits<T>::min(), the smallest positive normal number. */
  function MinNormal(t: FloatType): (r: real)
    ensures 0.0 < r <= 1.0
  {
    var e := match t
      case Single => 126
      case Binary64 => 1022
      case Extended => 16382;
    1.0 / Pow2(e)
  }

  /** floor_resid: one exactly when x is negative and below its whole part. */
  function FloorResid(x: real, whole: real): (r: int)
    ensures r == 0 || r == 1
    ensures r == 1 <==> x < 0.0 && x < whole
  {
    if x < 0.0 && x < whole then 1 else 0
  }

  /** floor_int: the whole part, less the residual. */
  function FloorInt(x: real, whole: real): (r: real)
    ensures r == whole || r == whole - 1.0
    ensures r < whole <==> x < 0.0 && x < whole
  {
    whole - FloorResid(x, whole) as real
  }

  /** A conversion to an integer type (static_cast), which truncates toward zero. */
  function Trunc(x: real): (r: int)
    ensures x >= 0.0 ==> 0 <= r && r as real <= x < r as real + 1.0
    ensures x < 0.0 ==> r <= 0 && r as real - 1.0 < x <= r as real
  {
    if x >= 0.0 then x.Floor else -((-x).Floor)
  }

  /** nonstd::sgn, which is not part of this model, read as the usual sign. */
  function Sgn(x: real): real {
    if x > 0.0 then 1.0 else if x < 0.0 then -1.0 else 0.0
  }

  /** The truncation each specialisation builds: through int for float,
      through long long for double, and for long double the integer part
      of |x| (through unsigned long long) times the sign of x. */
  function Whole(t: FloatType, x: real): real {
    match t
    case Single => Trunc(x) as real
    case Binary64 => Trunc(x) as real
    case Extended => Trunc(AbsFinite(x)) as real * Sgn(x)
  }

  /** The long double construction is truncation toward zero as well. */
  lemma ExtendedWholeIsTrunc(x: real)
    ensures Whole(Extended, x) == Trunc(x) as real
  {
    if x < 0.0 {
      assert Trunc(AbsFinite(x)) == (-x).Floor;
    }
  }

  /** With the truncation as whole part, floor_int is the greatest integer
      not above x. */
  lemma FloorIntOfTrunc(x: real)
    ensures FloorInt(x, Trunc(x) as real) == x.Floor as real
    ensures x.Floor as real <= x < x.Floor as real + 1.0
  {
    var w := Trunc(x);
    if x < 0.0 && x < w as real {
      assert w as real - 1.0 < x < w as real;
      assert x.Floor == w - 1;
    } else if x < 0.0 {
      assert x == w as real;
    }
  }

  /** floor_check_internal for float, double and long double. */
  function FloorCheckInternal(t: FloatType, x: real): (r: real)
    ensures AbsFinite(x) >= Threshold(t) ==> r == x
    ensures AbsFinite(x) < Threshold(t) ==> r == x.Floor as real && r <= x < r + 1.0
  {
    if AbsFinite(x) >= Threshold(t) then x
    else
      ExtendedWholeIsTrunc(x);
      FloorIntOfTrunc(x);
      FloorInt(x, Whole(t, x))
  }

  /** floor_check: NaN gives NaN; infinities, the signed zeros and values
      below the smallest normal number come back unchanged; anything else is
      floored by the specialisation for its type. */
  function FloorCheck(t: FloatType, x: Double): (r: Double)
    ensures IsNan(x) ==> r.NaN?
    ensures IsInf(x) ==> r == x
    ensures IsFinite(x) && Lt(Abs(x), Finite(MinNormal(t))) ==> r == x
    ensures IsFinite(x) && !Lt(Abs(x), Finite(MinNormal(t))) ==>
              r == Finite(FloorCheckInternal(t, Real(x)))
  {
    Classification(x);
    if IsNan(x) then NaN
    else if !IsFinite(x) then x
    else if Lt(Abs(x), Finite(MinNormal(t))) then x
    else Finite(FloorCheckInternal(t, Real(x)))
  }

  /** floor_check as evidently intended: the zeros come back unchanged, but a
      nonzero value below the smallest normal is floored like any other, to
      +0 when positive and to -1 when negative. Every finite input below the
      threshold then gives the integer n with n <= x < n + 1. */
  function FloorCheckCorrected(t: FloatType, x: Double): (r: Double)
    ensures IsNan(x) ==> r.NaN?
    ensures IsInf(x) ==> r == x
    ensures IsFinite(x) && AbsFinite(Real(x)) < Threshold(t) ==>
              IsFinite(r) && Real(r) == Real(x).Floor as real && Real(r) <= Real(x) < Real(r) + 1.0
    ensures IsFinite(x) && AbsFinite(Real(x)) >= Threshold(t) ==> r == x
    ensures !(IsFinite(x) && Lt(Abs(x), Finite(MinNormal(t)))) ==> r == FloorCheck(t, x)
  {
    Classification(x);
    if IsNan(x) then NaN
    else if !IsFinite(x) then x
    else if Lt(Abs(x), Finite(MinNormal(t))) then
      TinyBelowOne(t, x);
      if Real(x) == 0.0 then x
      else if Real(x) < 0.0 then Finite(-1.0)
      else Finite(0.0)
    else
      Finite(FloorCheckInternal(t, Real(x)))
  }

  /** A finite value below the smallest normal has magnitude below 1. */
  lemma TinyBelowOne(t: FloatType, x: Double)
    requires x.Finite? || x.NegZero?
    requires Lt(Abs(x), Finite(MinNormal(t)))
    ensures -1.0 < Real(x) < 1.0
  {
    AbsOfFinite(Real(x));
  }

  /** As written, floor_check returns a negative value below the smallest
      normal unchanged (line 81), so its result is not an integer: -min / 2
      comes back as itself, where the floor is -1. */
  lemma NegativeSubnormalNotFloored(t: FloatType)
    ensures var x := -MinNormal(t) / 2.0;
            -1.0 < x < 0.0 && x.Floor == -1 &&
            FloorCheck(t, Finite(x)) == Finite(x) &&
            FloorCheckCorrected(t, Finite(x)) == Finite(-1.0)
  {
    var x := -MinNormal(t) / 2.0;
    assert Abs(Finite(x)) == Finite(MinNormal(t) / 2.0);
  }

  /** nonstd::floor: for a finite normal input below the type's threshold the
      result is the integer n with n <= x < n + 1. */
  function FloorOf(t: FloatType, x: Double): (r: Double)
    ensures (x.Finite? && MinNormal(t) <= AbsFinite(x.v) < Threshold(t)) ==>
              r == Finite(x.v.Floor as real) && r.v <= x.v < r.v + 1.0
  {
    FloorCheck(t, x)
  }

  /** Flooring twice is flooring once, for every input. */
  lemma FloorIdempotent(t: FloatType, x: Double)
    ensures FloorOf(t, FloorOf(t, x)) == FloorOf(t, x)
  {
    Classification(x);
    var r := FloorOf(t, x);
    Classification(r);
    if x.Finite? && !Lt(Abs(x), Finite(MinNormal(t))) && AbsFinite(x.v) < Threshold(t) {
      var n := x.v.Floor;
      assert r == Finite(n as real);
      if n != 0 {
        assert AbsFinite(n as real) >= 1.0;
        assert !Lt(Abs(r), Finite(MinNormal(t)));
        assert (n as real).Floor == n;
      }
    }
  }
}
