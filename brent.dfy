/** findRootBrentFirstOrder of math/NumericMath.h: Brent's bracketing root
    finder, which mixes inverse quadratic interpolation, the secant rule and
    bisection. Doubles are read as exact reals; the caller's function is a
    total map from reals to reals. */
module BrentSolver {
  import opened Helpers
  import opened NumericMath

  /** The inverse quadratic interpolation step: the three weighted abscissas
      summed in the order the source adds them. */
  function InverseQuadratic(a: real, b: real, c: real, fa: real, fb: real, fc: real): real
    requires fa != fb && fa != fc && fb != fc
  {
    var ab, ac, ba, bc, ca, cb := fa - fb, fa - fc, fb - fa, fb - fc, fc - fa, fc - fb;
    MulNonzero(ab, ac);
    MulNonzero(ba, bc);
    MulNonzero(ca, cb);
    var da, db, dc := ab * ac, ba * bc, ca * cb;
    a * fb * fc / da + b * fa * fc / db + c * fa * fb / dc
  }

  /** The Lagrange polynomial in y through (fa, a), (fb, b) and (fc, c): x as a
      quadratic function of the value. */
  function Lagrange(a: real, b: real, c: real, fa: real, fb: real, fc: real, y: real): real
    requires fa != fb && fa != fc && fb != fc
  {
    var ab, ac, ba, bc, ca, cb := fa - fb, fa - fc, fb - fa, fb - fc, fc - fa, fc - fb;
    MulNonzero(ab, ac);
    MulNonzero(ba, bc);
    MulNonzero(ca, cb);
    var da, db, dc := ab * ac, ba * bc, ca * cb;
    a * ((y - fb) * (y - fc)) / da + b * ((y - fa) * (y - fc)) / db + c * ((y - fa) * (y - fb)) / dc
  }

  /** The interpolation step is the inverse interpolant evaluated at zero. */
  lemma InverseQuadraticIsLagrangeAtZero(a: real, b: real, c: real, fa: real, fb: real, fc: real)
    requires fa != fb && fa != fc && fb != fc
    ensures InverseQuadratic(a, b, c, fa, fb, fc) == Lagrange(a, b, c, fa, fb, fc, 0.0)
  {
    assert a * fb * fc == a * ((0.0 - fb) * (0.0 - fc));
    assert b * fa * fc == b * ((0.0 - fa) * (0.0 - fc));
    assert c * fa * fb == c * ((0.0 - fa) * (0.0 - fb));
  }

  lemma CancelQuotient(x: real, p: real, q: real)
    requires p != 0.0 && q != 0.0
    ensures x * (p * q) / (p * q) == x
  {
    MulNonzero(p, q);
  }

  /** At the value of its first node the interpolant gives that node's
      abscissa: the first weight is 1 and the other two vanish. */
  lemma LagrangeAtFirst(a: real, b: real, c: real, fa: real, fb: real, fc: real)
    requires fa != fb && fa != fc && fb != fc
    ensures Lagrange(a, b, c, fa, fb, fc, fa) == a
  {
    CancelQuotient(a, fa - fb, fa - fc);
    assert (fa - fa) * (fa - fc) == 0.0 && (fa - fa) * (fa - fb) == 0.0;
  }

  /** The inverse interpolant passes through the three points it is built on. */
  lemma LagrangeThroughPoints(a: real, b: real, c: real, fa: real, fb: real, fc: real)
    requires fa != fb && fa != fc && fb != fc
    ensures Lagrange(a, b, c, fa, fb, fc, fa) == a
    ensures Lagrange(a, b, c, fa, fb, fc, fb) == b
    ensures Lagrange(a, b, c, fa, fb, fc, fc) == c
  {
    LagrangeAtFirst(a, b, c, fa, fb, fc);
    LagrangeAtFirst(b, a, c, fb, fa, fc);
    LagrangeAtFirst(c, a, b, fc, fa, fb);
    LagrangeSymmetric(a, b, c, fa, fb, fc, fb);
    LagrangeSymmetric2(a, b, c, fa, fb, fc, fc);
  }

  /** Swapping the first two nodes leaves the interpolant unchanged. */
  lemma LagrangeSymmetric(a: real, b: real, c: real, fa: real, fb: real, fc: real, y: real)
    requires fa != fb && fa != fc && fb != fc
    ensures Lagrange(a, b, c, fa, fb, fc, y) == Lagrange(b, a, c, fb, fa, fc, y)
  {
  }

  /** Rotating the nodes leaves the interpolant unchanged. */
  lemma LagrangeSymmetric2(a: real, b: real, c: real, fa: real, fb: real, fc: real, y: real)
    requires fa != fb && fa != fc && fb != fc
    ensures Lagrange(a, b, c, fa, fb, fc, y) == Lagrange(c, a, b, fc, fa, fb, y)
  {
  }

  /** The secant step through (a, fa) and (b, fb). */
  function Secant(a: real, b: real, fa: real, fb: real): real
    requires fa != fb
  {
    b - fb * (b - a) / (fb - fa)
  }

  /** The secant point is where the chord through the two points meets zero. */
  lemma SecantZeroOfChord(a: real, b: real, fa: real, fb: real)
    requires fa != fb
    ensures (Secant(a, b, fa, fb) - b) * (fb - fa) == -fb * (b - a)
  {
    var q := fb * (b - a) / (fb - fa);
    assert q * (fb - fa) == fb * (b - a);
  }

  /** The interpolation candidate: inverse quadratic interpolation when fc
      is far from both fa and fb, the secant rule otherwise. Only fa != fb is
      needed: the two closeness tests certify the other two differences. */
  function Candidate(a: real, b: real, c: real, fa: real, fb: real, fc: real): (r: real)
    requires fa != fb
    ensures !AreClose(fc, fa) && !AreClose(fb, fc) ==> r == Lagrange(a, b, c, fa, fb, fc, 0.0)
    ensures AreClose(fc, fa) || AreClose(fb, fc) ==> (r - b) * (fb - fa) == -fb * (b - a)
  {
    if !AreClose(fc, fa) && !AreClose(fb, fc) then
      InverseQuadraticIsLagrangeAtZero(a, b, c, fa, fb, fc);
      InverseQuadratic(a, b, c, fa, fb, fc)
    else
      SecantZeroOfChord(a, b, fa, fb);
      Secant(a, b, fa, fb)
  }

  /** The six tests that send Brent's method back to bisection: the candidate
      lies outside [(3a + b) / 4, b], or it would not shrink the step enough
      compared with the last (mflag) or the one before (otherwise). */
  predicate Rejects(a: real, b: real, c: real, d: real, s: real, mflag: bool, eps: real)
    ensures b < a ==> Rejects(a, b, c, d, s, mflag, eps)
    ensures !Rejects(a, b, c, d, s, mflag, eps) ==> 0.25 * (3.0 * a + b) <= s <= b
  {
    var absDiffSB2 := AbsFinite(s - b) + AbsFinite(s - b);
    var absDiffBC := AbsFinite(b - c);
    var absDiffCD := AbsFinite(c - d);
    s < 0.25 * (3.0 * a + b) || s > b
    || (mflag && absDiffSB2 >= absDiffBC) || (!mflag && absDiffSB2 >= absDiffCD)
    || (mflag && absDiffBC < eps) || (!mflag && absDiffCD < eps)
  }

  /** The point evaluated next, with the new mflag: the midpoint after a
      rejection, the candidate otherwise. Whatever the candidate, the point
      lies between a and b; an accepted candidate lies in [(3a + b) / 4, b]. */
  function Trial(a: real, b: real, c: real, d: real, s: real, mflag: bool, eps: real): (r: (real, bool))
    ensures Min(a, b) <= r.0 <= Max(a, b)
    ensures !r.1 ==> r.0 == s && 0.25 * (3.0 * a + b) <= s <= b
    ensures r.1 ==> r.0 == 0.5 * (a + b)
    ensures r.1 <==> Rejects(a, b, c, d, s, mflag, eps)
  {
    if Rejects(a, b, c, d, s, mflag, eps) then (0.5 * (a + b), true) else (s, false)
  }

  /** When b lies below a the window [(3a + b) / 4, b] is empty, so every
      candidate is rejected and the step is a bisection. */
  lemma ReversedBracketBisects(a: real, b: real, c: real, d: real, s: real, mflag: bool, eps: real)
    requires b < a
    ensures Trial(a, b, c, d, s, mflag, eps) == (0.5 * (a + b), true)
  {
  }

  /** Of two nonzero values on opposite sides of zero, a third nonzero value
      has the opposite sign of one of them. */
  lemma SignChangeKept(fa: real, fb: real, fs: real)
    requires fa * fb < 0.0 && fs != 0.0
    ensures fa * fs < 0.0 || fs * fb < 0.0
  {
    if fa > 0.0 {
      assert fb < 0.0;
    } else {
      assert fa < 0.0 && fb > 0.0;
    }
  }

  lemma MulCommutes(x: real, y: real)
    ensures x * y == y * x
  {
  }

  /** A negative product has two distinct factors. */
  lemma MulNonzeroFactors(x: real, y: real)
    requires x * y < 0.0
    ensures x != y
  {
  }

  /** Two nonzero values whose product is not positive have a negative product. */
  lemma OppositeSigns(fa: real, fb: real)
    requires fa != 0.0 && fb != 0.0 && !(fa * fb > 0.0)
    ensures fa * fb < 0.0
  {
    MulNonzero(fa, fb);
  }

  /** The end of one step: s replaces the end of [a, b] whose value has the
      same sign as fs, and the ends are swapped so that b is the one with the
      smaller value. The sign change survives, b stays the better end, s
      becomes an end, and each end carries its own value. */
  method Narrow(a: real, b: real, fa: real, fb: real, s: real, fs: real)
    returns (a': real, b': real, fa': real, fb': real)
    requires fa * fb < 0.0 && fs != 0.0
    ensures fa' * fb' < 0.0 && AbsFinite(fb') <= AbsFinite(fa')
    ensures (a' == a && fa' == fa) || (a' == b && fa' == fb) || (a' == s && fa' == fs)
    ensures (b' == a && fb' == fa) || (b' == b && fb' == fb) || (b' == s && fb' == fs)
    ensures s == b' || (s == a' && fs == fa')
  {
    SignChangeKept(fa, fb, fs);
    a', b', fa', fb' := a, b, fa, fb;
    if fa' * fs < 0.0 {
      b', fb' := s, fs;
    } else {
      a', fa' := s, fs;
    }
    if AbsFinite(fa') < AbsFinite(fb') {
      a', b' := b', a';
      fa', fb' := fb', fa';
    }
  }

  /** The main loop of findRootBrentFirstOrder, entered with a bracket
      [a, b] inside [lo, hi] on which f changes sign, b the end with the
      smaller value. It returns the root the source returns, whether the
      iteration bound rather than the bracket width ended the loop, and the
      other end of the last bracket. */
  method BrentIterate(funPtr: real -> real, a0: real, b0: real, fa0: real, fb0: real,
                      lo: real, hi: real, eps: real, maxIter: nat)
    returns (root: real, exhausted: bool, ghost other: real)
    requires fa0 == funPtr(a0) && fb0 == funPtr(b0) && fa0 * fb0 < 0.0 && AbsFinite(fb0) <= AbsFinite(fa0)
    requires lo <= a0 <= hi && lo <= b0 <= hi && eps > 0.0
    ensures lo <= root <= hi && lo <= other <= hi
    ensures !exhausted ==> AbsFinite(funPtr(root)) < eps ||
                           (funPtr(root) * funPtr(other) < 0.0 && AbsFinite(root - other) <= eps
                            && AbsFinite(funPtr(root)) <= AbsFinite(funPtr(other)))
    ensures exhausted ==> funPtr(root) * funPtr(other) < 0.0 && AbsFinite(funPtr(root)) <= AbsFinite(funPtr(other))
  {
    var a, b, fa, fb := a0, b0, fa0, fb0;
    var c, fc := a, fa;
    var mflag := true;
    var s, fs, d := b, 1.0, 0.0;
    var iter := 0;
    while AbsFinite(b - a) > eps && iter < maxIter
      invariant fa == funPtr(a) && fb == funPtr(b) && fc == funPtr(c)
      invariant fa * fb < 0.0 && AbsFinite(fb) <= AbsFinite(fa)
      invariant lo <= a <= hi && lo <= b <= hi
      invariant s == b || (s == a && fs == fa)
      invariant iter <= maxIter
      decreases maxIter - iter
    {
      MulNonzeroFactors(fa, fb);
      s := Candidate(a, b, c, fa, fb, fc);
      s, mflag := Trial(a, b, c, d, s, mflag, eps).0, Trial(a, b, c, d, s, mflag, eps).1;
      fs := funPtr(s);
      if AbsFinite(fs) < eps {
        return s, false, s;
      }
      d := c;
      c, fc := b, fb;
      a, b, fa, fb := Narrow(a, b, fa, fb, s, fs);
      iter := iter + 1;
    }
    root := if AbsFinite(fs) < AbsFinite(fb) then s else b;
    exhausted := AbsFinite(b - a) > eps;
    other := a;
    assert root == b;
    MulCommutes(fa, fb);
  }

  /** findRootBrentFirstOrder: the tests at the two ends and the orientation
      of the bracket, then the main loop. The source loops until the bracket
      is narrower than epsilon, which real arithmetic cannot bound, so the
      loop runs at most maxIter times; exhausted reports that this bound,
      and not the source's own exit, ended the search. */
  method FindRootBrentFirstOrder(funPtr: real -> real, a0: real, b0: real, root0: real,
                                 epsilon: real := 0.00000001, maxIter: nat := 1000)
    returns (ok: bool, root: real, exhausted: bool, ghost other: real)
    ensures funPtr(a0) == 0.0 ==> ok && root == a0 && !exhausted
    ensures funPtr(a0) != 0.0 && funPtr(b0) == 0.0 ==> ok && root == b0 && !exhausted
    ensures funPtr(a0) * funPtr(b0) > 0.0 ==> !ok && root == root0 && !exhausted
    ensures ok <==> funPtr(a0) * funPtr(b0) <= 0.0 && !exhausted
    ensures funPtr(a0) * funPtr(b0) <= 0.0 ==> Min(a0, b0) <= root <= Max(a0, b0)
    ensures ok ==> AbsFinite(funPtr(root)) < ClampTolerance(epsilon) ||
                   (funPtr(root) * funPtr(other) < 0.0 && AbsFinite(root - other) <= ClampTolerance(epsilon)
                    && AbsFinite(funPtr(root)) <= AbsFinite(funPtr(other)) && Min(a0, b0) <= other <= Max(a0, b0))
    ensures exhausted ==> funPtr(root) * funPtr(other) < 0.0 && AbsFinite(funPtr(root)) <= AbsFinite(funPtr(other))
                          && Min(a0, b0) <= other <= Max(a0, b0)
  {
    var eps := ClampTolerance(epsilon);
    var lo, hi := Min(a0, b0), Max(a0, b0);
    var a, b := a0, b0;
    var fa := funPtr(a);
    if fa == 0.0 {
      return true, a, false, a;
    }
    var fb := funPtr(b);
    if fb == 0.0 {
      return true, b, false, b;
    }
    if fa * fb > 0.0 {
      return false, root0, false, root0;
    }
    OppositeSigns(fa, fb);
    if AbsFinite(fa) < AbsFinite(fb) {
      a, b := b, a;
      fa, fb := fb, fa;
      MulCommutes(fb, fa);
    }
    root, exhausted, other := BrentIterate(funPtr, a, b, fa, fb, lo, hi, eps, maxIter);
    ok := !exhausted;
  }
}
