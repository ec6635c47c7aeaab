/** The shared pieces of math/NumericMath.h: the constants the solvers use,
    the relative near-equality test and the parabolic-vertex formula. Doubles
    are read as exact reals. */
module NumericMath {
  import opened Helpers

  /** MIN_POSITIVE of math/Constants.h, which is not part of this model; its
      value is taken as 1e-21, and the proofs use only 0 < MIN_POSITIVE <= 1. */
  const MinPositive: real := 0.000000000000000000001

  /** MAX_ITER and MAX_STEP of the two Newton solvers. */
  const MaxIter: nat := 100000
  const MaxStep: real := 10.0

  function Max(x: real, y: real): real {
    if x < y then y else x
  }

  function Min(x: real, y: real): real {
    if y < x then y else x
  }

  /** areClose: equal values, or values whose distance is below eps times the
      larger magnitude. */
  function AreClose(a: real, b: real, eps: real := 0.000001): (r: bool)
    ensures a == b ==> r
    ensures r <==> a == b || AbsFinite(b - a) < eps * Max(AbsFinite(a), AbsFinite(b))
  {
    if a == b then true
    else AbsFinite(b - a) < eps * Max(AbsFinite(a), AbsFinite(b))
  }

  /** The test does not depend on the order of its operands. */
  lemma AreCloseSymmetric(a: real, b: real, eps: real)
    ensures AreClose(a, b, eps) == AreClose(b, a, eps)
  {
    assert AbsFinite(b - a) == AbsFinite(a - b);
    assert Max(AbsFinite(a), AbsFinite(b)) == Max(AbsFinite(b), AbsFinite(a));
  }

  /** A close pair is never far apart: `!AreClose` certifies distinct values,
      which is what keeps Brent's interpolation denominators nonzero. */
  lemma NotCloseMeansDistinct(a: real, b: real, eps: real)
    requires !AreClose(a, b, eps)
    ensures a != b
  {
  }

  /** The sanity check of every solver: a tolerance is raised to MIN_POSITIVE. */
  function ClampTolerance(tol: real): (r: real)
    ensures r >= MinPositive && r >= tol
    ensures r == tol || r == MinPositive
    ensures tol > MinPositive ==> r == tol
  {
    if tol > MinPositive then tol else MinPositive
  }

  /** The three points do not lie on one line: the formula's denominator is
      the difference of the two chord slopes, scaled. */
  predicate NotCollinear(a: real, b: real, c: real, fa: real, fb: real, fc: real) {
    (b - a) * (fb - fc) + (c - b) * (fb - fa) != 0.0
  }

  /** parabolicMinimum: the abscissa of the vertex of the parabola through
      (a, fa), (b, fb), (c, fc). */
  function ParabolicMinimum(a: real, b: real, c: real, fa: real, fb: real, fc: real): (r: real)
    requires NotCollinear(a, b, c, fa, fb, fc)
    ensures fa == fc ==> r == 0.5 * (a + c)
  {
    EqualEndsVertex(a, b, c, fa, fb, fc);
    var bma, cmb := b - a, c - b;
    var aux1 := bma * (fb - fc);
    var aux2 := cmb * (fb - fa);
    var numerator := bma * aux1 - cmb * aux2;
    var denominator := aux1 + aux2;
    b - 0.5 * numerator / denominator
  }

  /** Equal values at the outer points put the vertex midway between them:
      the numerator is the denominator times (b - a) - (c - b). */
  lemma EqualEndsVertex(a: real, b: real, c: real, fa: real, fb: real, fc: real)
    requires NotCollinear(a, b, c, fa, fb, fc)
    ensures fa == fc ==>
      var bma, cmb := b - a, c - b;
      var aux1, aux2 := bma * (fb - fc), cmb * (fb - fa);
      b - 0.5 * (bma * aux1 - cmb * aux2) / (aux1 + aux2) == 0.5 * (a + c)
  {
    if fa == fc {
      var bma, cmb := b - a, c - b;
      var aux1, aux2 := bma * (fb - fc), cmb * (fb - fa);
      var denominator := aux1 + aux2;
      assert bma * aux1 - cmb * aux2 == denominator * (bma - cmb);
      assert (bma * aux1 - cmb * aux2) / denominator == bma - cmb;
    }
  }

  function Quadratic(qa: real, qb: real, qc: real, x: real): real {
    qa * x * x + qb * x + qc
  }

  /** For distinct abscissas, NotCollinear says exactly that the two chord
      slopes differ. */
  lemma NotCollinearIffSlopesDiffer(a: real, b: real, c: real, fa: real, fb: real, fc: real)
    requires a != b && b != c
    ensures NotCollinear(a, b, c, fa, fb, fc) <==> (fb - fa) / (b - a) != (fc - fb) / (c - b)
  {
    var s1, s2 := (fb - fa) / (b - a), (fc - fb) / (c - b);
    assert fb - fa == s1 * (b - a);
    assert fc - fb == s2 * (c - b);
    assert (b - a) * (fb - fc) + (c - b) * (fb - fa) == (b - a) * (c - b) * (s1 - s2);
    assert (b - a) * (c - b) != 0.0;
  }

  lemma QuadraticDifference(qa: real, qb: real, qc: real, x: real, y: real)
    ensures Quadratic(qa, qb, qc, x) - Quadratic(qa, qb, qc, y) == (x - y) * (qa * (x + y) + qb)
  {
    assert qa * x * x - qa * y * y == qa * (x - y) * (x + y);
  }

  lemma VertexDenominator(qa: real, qb: real, a: real, b: real, c: real)
    requires qa != 0.0 && a != b && b != c && a != c
    ensures (b - a) * ((b - c) * (qa * (b + c) + qb)) + (c - b) * ((b - a) * (qa * (b + a) + qb))
            == (b - a) * (c - b) * (a - c) * qa
    ensures (b - a) * (c - b) * (a - c) * qa != 0.0
  {
    MulNonzero(b - a, c - b);
    MulNonzero((b - a) * (c - b), a - c);
    MulNonzero((b - a) * (c - b) * (a - c), qa);
  }

  lemma VertexNumerator(qa: real, qb: real, a: real, b: real, c: real)
    ensures (b - a) * ((b - a) * ((b - c) * (qa * (b + c) + qb)))
            - (c - b) * ((c - b) * ((b - a) * (qa * (b + a) + qb)))
            == (b - a) * (c - b) * (a - c) * (2.0 * qa * b + qb)
  {
    var p := (b - a) * (c - b);
    assert (b - a) * ((b - a) * ((b - c) * (qa * (b + c) + qb))) == -p * ((b - a) * (qa * (b + c) + qb));
    assert (c - b) * ((c - b) * ((b - a) * (qa * (b + a) + qb))) == p * ((c - b) * (qa * (b + a) + qb));
    assert (b - a) * (qa * (b + c) + qb) + (c - b) * (qa * (a + b) + qb) == (c - a) * (2.0 * qa * b + qb);
  }

  lemma VertexQuotient(m: real, qa: real, qb: real, b: real)
    requires m * qa != 0.0
    ensures b - 0.5 * (m * (2.0 * qa * b + qb)) / (m * qa) == -qb / (2.0 * qa)
  {
    assert qa != 0.0;
    assert (m * (2.0 * qa * b + qb)) / (m * qa) == (2.0 * qa * b + qb) / qa;
    assert (2.0 * qa * b + qb) / qa == 2.0 * b + qb / qa;
  }

  lemma ParabolicMinimumUnfold(a: real, b: real, c: real, fa: real, fb: real, fc: real, num: real, den: real)
    requires NotCollinear(a, b, c, fa, fb, fc)
    requires den == (b - a) * (fb - fc) + (c - b) * (fb - fa)
    requires num == (b - a) * ((b - a) * (fb - fc)) - (c - b) * ((c - b) * (fb - fa))
    ensures ParabolicMinimum(a, b, c, fa, fb, fc) == b - 0.5 * num / den
  {
  }

  lemma MulNonzero(x: real, y: real)
    requires x != 0.0 && y != 0.0
    ensures x * y != 0.0
  {
  }

  /** Replacing the two value differences by equal expressions in the
      denominator and the numerator of parabolicMinimum. */
  lemma SubstituteDifferences(u: real, v: real, x: real, y: real, ex: real, ey: real)
    requires x == ex && y == ey
    ensures u * x + v * y == u * ex + v * ey
    ensures u * (u * x) - v * (v * y) == u * (u * ex) - v * (v * ey)
  {
  }

  lemma VertexFromDifferences(qa: real, qb: real, a: real, b: real, c: real, fa: real, fb: real, fc: real)
    requires qa != 0.0 && a != b && b != c && a != c
    requires fb - fc == (b - c) * (qa * (b + c) + qb)
    requires fb - fa == (b - a) * (qa * (b + a) + qb)
    ensures NotCollinear(a, b, c, fa, fb, fc)
    ensures ParabolicMinimum(a, b, c, fa, fb, fc) == -qb / (2.0 * qa)
  {
    var m := (b - a) * (c - b) * (a - c);
    VertexDenominator(qa, qb, a, b, c);
    VertexNumerator(qa, qb, a, b, c);
    SubstituteDifferences(b - a, c - b, fb - fc, fb - fa,
                          (b - c) * (qa * (b + c) + qb), (b - a) * (qa * (b + a) + qb));
    ParabolicMinimumUnfold(a, b, c, fa, fb, fc, m * (2.0 * qa * b + qb), m * qa);
    VertexQuotient(m, qa, qb, b);
  }

  /** Sampled from a genuine quadratic at three distinct points, the formula
      returns that quadratic's vertex -qb / (2 qa). */
  lemma ParabolicMinimumIsVertex(qa: real, qb: real, qc: real, a: real, b: real, c: real)
    requires qa != 0.0 && a != b && b != c && a != c
    ensures NotCollinear(a, b, c, Quadratic(qa, qb, qc, a), Quadratic(qa, qb, qc, b), Quadratic(qa, qb, qc, c))
    ensures ParabolicMinimum(a, b, c, Quadratic(qa, qb, qc, a), Quadratic(qa, qb, qc, b), Quadratic(qa, qb, qc, c))
            == -qb / (2.0 * qa)
  {
    QuadraticDifference(qa, qb, qc, b, c);
    QuadraticDifference(qa, qb, qc, b, a);
    VertexFromDifferences(qa, qb, a, b, c, Quadratic(qa, qb, qc, a), Quadratic(qa, qb, qc, b), Quadratic(qa, qb, qc, c));
  }

  /** (x - 5)^2 sampled at 3, 5 and 7 has its vertex at 5. */
  lemma ParabolicMinimumExample()
    ensures NotCollinear(3.0, 5.0, 7.0, 4.0, 0.0, 4.0)
    ensures ParabolicMinimum(3.0, 5.0, 7.0, 4.0, 0.0, 4.0) == 5.0
  {
    ParabolicMinimumIsVertex(1.0, -10.0, 25.0, 3.0, 5.0, 7.0);
  }
}
