/** KumaraswamyRand of distributions/univariate/continuous/KumaraswamyRand.cpp:
    the two shape parameters a and b, the density, the distribution and
    survival functions, the mode, the moments, the two quantile forms and the
    transform that turns Pareto draws into Kumaraswamy draws. The C library
    and RandMath::betaFun are caller-supplied functions about which nothing
    is known unless a lemma says so. */
module Kumaraswamy {
  import opened Helpers

  /** std::pow, std::log, std::exp, std::log1p and RandMath::betaFun. */
  datatype Libm = Libm(
    pow: (real, real) -> real,
    log: real -> real,
    exp: real -> real,
    log1p: real -> real,
    betaFun: (real, real) -> real)

  /** std::pow inverts itself on (0, 1): raising to r and then to 1 / r gives
      back the base, and powers of a number in (0, 1) stay in (0, 1). */
  ghost predicate PowInverts(lib: Libm) {
    (forall x: real, r: real :: 0.0 < x < 1.0 && r > 0.0 ==> 0.0 < lib.pow(x, r) < 1.0) &&
    (forall x: real, r: real, s: real {:trigger lib.pow(lib.pow(x, r), s)} ::
       0.0 < x < 1.0 && r > 0.0 && s == 1.0 / r ==> lib.pow(lib.pow(x, r), s) == x)
  }

  /** A shape parameter as SetShapes accepts it: positive, or 1 in its place. */
  function Shape(s: real): (r: real)
    ensures r > 0.0
    ensures r == s || r == 1.0
    ensures s > 0.0 <==> r == s
  {
    if s > 0.0 then s else 1.0
  }

  /** The mode for shapes a, b > 1: ((a - 1) / (ab - 1))^(1 / a). */
  function InteriorMode(lib: Libm, a: real, b: real): real
    requires a > 1.0 && b > 1.0
  {
    lib.pow((a - 1.0) / (a * b - 1.0), 1.0 / a)
  }

  lemma InteriorModeInUnit(lib: Libm, a: real, b: real)
    requires a > 1.0 && b > 1.0 && PowInverts(lib)
    ensures 0.0 < InteriorMode(lib, a, b) < 1.0
  {
    ModeBase(a, b);
  }

  /** For a, b > 1 the base (a - 1) / (ab - 1) of the mode lies in (0, 1),
      since (ab - 1) - (a - 1) = a(b - 1) > 0. */
  lemma ModeBase(a: real, b: real)
    requires a > 1.0 && b > 1.0
    ensures 0.0 < (a - 1.0) / (a * b - 1.0) < 1.0 && 1.0 / a > 0.0
  {
    var num, den := a - 1.0, a * b - 1.0;
    assert den - num == a * (b - 1.0);
    assert a * (b - 1.0) > 0.0;
    RatioBelowOne(num, den);
  }

  lemma RatioBelowOne(num: real, den: real)
    requires 0.0 < num < den
    ensures 0.0 < num / den < 1.0
  {
    var r := num / den;
    assert r * den == num;
    if r >= 1.0 {
      assert false;
    }
  }

  class KumaraswamyRand {
    var a: real
    var b: real

    predicate Valid()
      reads this
    {
      a > 0.0 && b > 0.0
    }

    constructor(shape1: real, shape2: real)
      ensures Valid()
      ensures a == Shape(shape1) && b == Shape(shape2)
    {
      a := Shape(shape1);
      b := Shape(shape2);
    }

    /** SetShapes: each shape is kept when positive and replaced by 1 otherwise. */
    method SetShapes(shape1: real, shape2: real)
      modifies this
      ensures Valid()
      ensures a == Shape(shape1) && b == Shape(shape2)
    {
      a := Shape(shape1);
      b := Shape(shape2);
    }

    /** The density at an end of [0, 1] whose exponent is s: a * b when s is
        1, zero when s exceeds 1 and infinite below. */
    function EndDensity(s: real): (r: Double)
      reads this
      ensures s == 1.0 ==> r == Finite(a * b)
      ensures r.PosInf? <==> s < 1.0
      ensures r == Finite(0.0) <==> s > 1.0 || (s == 1.0 && a * b == 0.0)
    {
      if s == 1.0 then Finite(a * b)
      else if s > 1.0 then Finite(0.0)
      else PosInf
    }

    /** f: zero outside [0, 1], the end rules at 0 (governed by a) and at 1
        (governed by b), and the libm formula inside. */
    function Density(lib: Libm, x: real): (r: Double)
      reads this
      ensures x < 0.0 || x > 1.0 ==> r == Finite(0.0)
      ensures x == 0.0 ==> r == EndDensity(a)
      ensures x == 1.0 ==> r == EndDensity(b)
      ensures 0.0 < x < 1.0 ==> r.Finite?
    {
      if x < 0.0 || x > 1.0 then Finite(0.0)
      else if x == 0.0 then EndDensity(a)
      else if x == 1.0 then EndDensity(b)
      else if a == b then
        var y := 1.0 - lib.pow(x, a);
        var y' := y * x;
        var y'' := lib.pow(y', a - 1.0);
        Finite(a * a * y'')
      else
        var y := lib.log1p(-lib.pow(x, a));
        var y' := y * (b - 1.0);
        var y'' := y' + (a - 1.0) * lib.log(x);
        Finite(a * b * lib.exp(y''))
    }

    /** F: 0 up to 0, 1 from 1 on, 1 - (1 - x^a)^b in between. */
    function F(lib: Libm, x: real): (r: real)
      reads this
      ensures x <= 0.0 ==> r == 0.0
      ensures x >= 1.0 ==> r == 1.0
    {
      if x <= 0.0 then 0.0
      else if x >= 1.0 then 1.0
      else
        var y := 1.0 - lib.pow(x, a);
        1.0 - lib.pow(y, b)
    }

    /** S: 1 up to 0, 0 from 1 on, (1 - x^a)^b in between. */
    function S(lib: Libm, x: real): (r: real)
      reads this
      ensures x <= 0.0 ==> r == 1.0
      ensures x >= 1.0 ==> r == 0.0
    {
      if x <= 0.0 then 1.0
      else if x >= 1.0 then 0.0
      else
        var y := 1.0 - lib.pow(x, a);
        lib.pow(y, b)
    }

    /** The overriding S agrees with the default 1 - F everywhere. */
    lemma SurvivalComplementsF(lib: Libm, x: real)
      ensures F(lib, x) + S(lib, x) == 1.0
    {
    }

    /** Mode: the libm formula when both shapes exceed 1; otherwise an end of
        [0, 1], the one the comparisons of a and b with 1 (and with each
        other) pick. */
    function Mode(lib: Libm): (r: real)
      reads this
      ensures !(a > 1.0 && b > 1.0) ==> r == 0.0 || r == 1.0
      ensures a > 1.0 && b <= 1.0 ==> r == 1.0
      ensures a <= 1.0 && b > 1.0 ==> r == 0.0
      ensures a <= 1.0 && b <= 1.0 ==> (r == 1.0 <==> a > b)
    {
      if a > 1.0 then
        (if b > 1.0 then InteriorMode(lib, a, b) else 1.0)
      else
        (if b > 1.0 then 0.0 else if a > b then 1.0 else 0.0)
    }

    /** For a, b > 1 the mode lies strictly inside (0, 1), when std::pow
        keeps (0, 1) inside itself. */
    lemma ModeInterior(lib: Libm)
      requires a > 1.0 && b > 1.0 && PowInverts(lib)
      ensures 0.0 < Mode(lib) < 1.0
    {
      InteriorModeInUnit(lib, a, b);
    }

    /** When the mode is an end of [0, 1], the density there is at least the
        density at the other end (comparing as doubles, infinity included). */
    lemma ModeEndIsDensest(lib: Libm)
      requires Valid()
      requires !(a > 1.0 && b > 1.0)
      ensures Le(Density(lib, 1.0 - Mode(lib)), Density(lib, Mode(lib)))
    {
      var m := Mode(lib);
      if m == 1.0 {
        assert b < 1.0 || b == 1.0;
        if b < 1.0 {
          assert Density(lib, m) == PosInf;
        } else {
          assert a > 1.0;
          assert Density(lib, 1.0 - m) == Finite(0.0);
          assert a * b > 0.0;
        }
      } else {
        assert m == 0.0;
        if a < 1.0 {
          assert Density(lib, m) == PosInf;
        } else {
          assert a == 1.0;
          assert Density(lib, m) == Finite(b);
          if b > 1.0 {
            assert Density(lib, 1.0 - m) == Finite(0.0);
          } else {
            assert b == 1.0;
          }
        }
      }
    }

    /** Moment(n) = b * B((a + n) / a, b), the n-th raw moment. */
    function Moment(lib: Libm, n: int): real
      reads this
      requires Valid()
    {
      b * lib.betaFun((a + n as real) / a, b)
    }

    /** Mean is the first raw moment. */
    function Mean(lib: Libm): real
      reads this
      requires Valid()
    {
      Moment(lib, 1)
    }

    /** Variance is the second raw moment less the square of the first. */
    function Variance(lib: Libm): (r: real)
      reads this
      requires Valid()
      ensures r + Mean(lib) * Mean(lib) == Moment(lib, 2)
    {
      var m1, m2 := Moment(lib, 1), Moment(lib, 2);
      m2 - m1 * m1
    }

    /** quantileImpl: the x with F(x) = p, as (1 - (1 - p)^(1/b))^(1/a). */
    function QuantileImpl(lib: Libm, p: real): (r: real)
      reads this
      requires Valid()
      ensures r == QuantileImpl1m(lib, 1.0 - p)
    {
      var x := lib.pow(1.0 - p, 1.0 / b);
      lib.pow(1.0 - x, 1.0 / a)
    }

    /** quantileImpl1m: the x with S(x) = q, as (1 - q^(1/b))^(1/a). */
    function QuantileImpl1m(lib: Libm, q: real): real
      reads this
      requires Valid()
    {
      var x := lib.pow(q, 1.0 / b);
      lib.pow(1.0 - x, 1.0 / a)
    }

    lemma ReciprocalOfReciprocal(r: real)
      requires r > 0.0
      ensures 1.0 / r > 0.0 && 1.0 / (1.0 / r) == r
    {
    }

    /** When std::pow inverts itself on (0, 1), quantileImpl inverts F on
        (0, 1): F(quantileImpl(p)) = p. */
    lemma {:induction false} QuantileInvertsF(lib: Libm, p: real)
      requires Valid() && PowInverts(lib)
      requires 0.0 < p < 1.0
      ensures 0.0 < QuantileImpl(lib, p) < 1.0
      ensures F(lib, QuantileImpl(lib, p)) == p
    {
      ReciprocalOfReciprocal(a);
      ReciprocalOfReciprocal(b);
      var t := lib.pow(1.0 - p, 1.0 / b);
      assert 0.0 < t < 1.0 && lib.pow(t, 1.0 / (1.0 / b)) == 1.0 - p;
      var u := 1.0 - t;
      var x := lib.pow(u, 1.0 / a);
      assert 0.0 < x < 1.0 && lib.pow(x, 1.0 / (1.0 / a)) == u;
      assert x == QuantileImpl(lib, p);
      assert lib.pow(x, a) == u;
      assert lib.pow(1.0 - lib.pow(x, a), b) == 1.0 - p;
    }

    /** When std::pow inverts itself on (0, 1), quantileImpl1m inverts S on
        (0, 1): S(quantileImpl1m(q)) = q. */
    lemma {:induction false} QuantileImpl1mInvertsS(lib: Libm, q: real)
      requires Valid() && PowInverts(lib)
      requires 0.0 < q < 1.0
      ensures 0.0 < QuantileImpl1m(lib, q) < 1.0
      ensures S(lib, QuantileImpl1m(lib, q)) == q
    {
      QuantileInvertsF(lib, 1.0 - q);
      assert QuantileImpl(lib, 1.0 - q) == QuantileImpl1m(lib, q);
      SurvivalComplementsF(lib, QuantileImpl1m(lib, q));
    }

    /** The transform Sample applies to one Pareto(b, 1) draw v. */
    function FromPareto(lib: Libm, v: real): (r: real)
      reads this
      requires Valid()
      requires v != 0.0
      ensures PowInverts(lib) && v > 1.0 ==> 0.0 < r < 1.0
    {
      lib.pow(1.0 - 1.0 / v, 1.0 / a)
    }

    /** A Pareto(b, 1) draw is v = U^(-1/b) for a uniform U; the transform then
        gives quantileImpl1m(U), an inverse-transform Kumaraswamy draw. */
    lemma FromParetoIsQuantile(lib: Libm, v: real, u: real)
      requires Valid() && v != 0.0
      requires lib.pow(u, 1.0 / b) == 1.0 / v
      ensures FromPareto(lib, v) == QuantileImpl1m(lib, u)
    {
    }

    /** The loop of Sample after the Pareto draws: every element v of
        outputData becomes (1 - 1/v)^(1/a). A Pareto draw is at least 1, so
        no element is zero. */
    method TransformSample(lib: Libm, outputData: array<real>)
      requires Valid()
      requires forall i :: 0 <= i < outputData.Length ==> outputData[i] != 0.0
      modifies outputData
      ensures forall i :: 0 <= i < outputData.Length ==> outputData[i] == FromPareto(lib, old(outputData[i]))
    {
      var aInv := 1.0 / a;
      var i := 0;
      while i < outputData.Length
        invariant 0 <= i <= outputData.Length
        invariant forall j :: 0 <= j < i ==> outputData[j] == FromPareto(lib, old(outputData[j]))
        invariant forall j :: i <= j < outputData.Length ==> outputData[j] == old(outputData[j])
      {
        outputData[i] := lib.pow(1.0 - 1.0 / outputData[i], aInv);
        i := i + 1;
      }
    }
  }
}
