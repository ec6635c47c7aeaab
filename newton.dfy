/** The two safeguarded Newton root finders of math/NumericMath.h,
    findRootNewtonFirstOrder and findRootNewtonSecondOrder. They share one
    control structure and differ only in what the caller's handle returns and
    in the step formula, so one engine, Newton, runs both; each source entry
    point is a method of its own that calls it. */
module NewtonSolver {
  import opened Helpers
  import opened NumericMath

  /** The caller's handle: x |-> (f(x), f'(x)) or x |-> (f(x), f'(x), f''(x)). */
  datatype Handle =
    | FirstOrder(fun1: real -> (real, real))
    | SecondOrder(fun2: real -> (real, real, real))

  /** One evaluation of the handle: value, slope and curvature (the curvature
      of a first-order handle is never read and is set to zero). */
  datatype Sample = Sample(f: real, fx: real, fxx: real)

  function Eval(h: Handle, x: real): Sample {
    match h
    case FirstOrder(g) => Sample(g(x).0, g(x).1, 0.0)
    case SecondOrder(g) => Sample(g(x).0, g(x).1, g(x).2)
  }

  /** `std::min(MAX_STEP, std::max(-MAX_STEP, num / den))` in IEEE arithmetic:
      a zero denominator (a difference of equal values, hence +0) makes the
      quotient an infinity of the numerator's sign, or NaN for 0 / 0, which
      std::max(-MAX_STEP, NaN) turns into -MAX_STEP. */
  function ClampedQuotient(num: real, den: real): (r: real)
    ensures -MaxStep <= r <= MaxStep
    ensures den != 0.0 && -MaxStep <= num / den <= MaxStep ==> r == num / den
    ensures den != 0.0 && num / den > MaxStep ==> r == MaxStep
    ensures den != 0.0 && num / den < -MaxStep ==> r == -MaxStep
    ensures den == 0.0 ==> r == (if num > 0.0 then MaxStep else -MaxStep)
  {
    if den == 0.0 then (if num > 0.0 then MaxStep else -MaxStep)
    else Min(MaxStep, Max(-MaxStep, num / den))
  }

  /** The full step: f / f' for the first-order solver and
      2 f f' / (2 f'^2 - f f'') for the second-order one, clamped. */
  function NewtonStep(h: Handle, y: Sample): (r: real)
    ensures AbsFinite(r) <= MaxStep
  {
    match h
    case FirstOrder(_) => ClampedQuotient(y.f, y.fx)
    case SecondOrder(_) => ClampedQuotient(2.0 * y.f * y.fx, 2.0 * y.fx * y.fx - y.f * y.fxx)
  }

  /** The line search's multiplier alpha after k halvings. */
  function Halving(k: nat): (r: real)
    ensures 0.0 < r <= 1.0
  {
    if k == 0 then 1.0 else 0.5 * Halving(k - 1)
  }

  /** `alpha > 0` stops the line search only because a double underflows:
      alpha = 2^-k is positive for k <= 1074 and halving 2^-1074 gives zero,
      so at most 1075 trial points are tried. */
  const HalvingLimit: nat := 1075

  function TrialPoint(x: real, step: real, k: nat): real {
    x - Halving(k) * step
  }

  /** The residual is small enough to stop at once. */
  predicate Hit(y: Sample) {
    AbsFinite(y.f) < MinPositive
  }

  /** A trial point the line search halves away from: a near-zero slope, or a
      residual larger than the one it started from. */
  predicate Rejected(oldFun: real, y: Sample) {
    AbsFinite(y.fx) <= MinPositive || AbsFinite(oldFun) < AbsFinite(y.f)
  }

  /** The line search goes on past trial j. */
  predicate Continues(h: Handle, x: real, oldFun: real, step: real, j: nat) {
    var y := Eval(h, TrialPoint(x, step, j));
    !Hit(y) && Rejected(oldFun, y)
  }

  /** The line search from x stops at trial k: every earlier trial was
      rejected, and trial k was a hit, was accepted, or was the last. */
  predicate StopsAt(h: Handle, x: real, oldFun: real, step: real, k: nat) {
    k < HalvingLimit &&
    (forall j :: 0 <= j < k ==> Continues(h, x, oldFun, step, j)) &&
    (!Continues(h, x, oldFun, step, k) || k == HalvingLimit - 1)
  }

  /** The inner do/while loop: try oldRoot - alpha * step, halving alpha. */
  method LineSearch(h: Handle, oldRoot: real, oldFun: real, step: real)
    returns (hit: bool, root: real, y: Sample, ghost k: nat)
    ensures StopsAt(h, oldRoot, oldFun, step, k)
    ensures root == TrialPoint(oldRoot, step, k) && y == Eval(h, root)
    ensures hit <==> Hit(y)
  {
    var alpha := 1.0;
    var n := 0;  // the number of halvings so far: alpha == 2^-n
    while true
      invariant n < HalvingLimit && alpha == Halving(n)
      invariant forall j :: 0 <= j < n ==> Continues(h, oldRoot, oldFun, step, j)
      decreases HalvingLimit - n
    {
      root := oldRoot - alpha * step;
      y := Eval(h, root);
      assert root == TrialPoint(oldRoot, step, n);
      if AbsFinite(y.f) < MinPositive {
        hit, k := true, n;
        return;
      }
      alpha := alpha * 0.5;
      if !((AbsFinite(y.fx) <= MinPositive || AbsFinite(oldFun) < AbsFinite(y.f)) && n + 1 < HalvingLimit) {
        hit, k := false, n;
        return;
      }
      n := n + 1;
    }
  }

  /** `std::min(m, std::fabs(d / base))`: for base = 0 the quotient is an
      infinity or NaN and std::min returns m. */
  function MinRelative(m: real, d: real, base: real): real {
    if base == 0.0 then m else Min(m, AbsFinite(d / base))
  }

  /** The step from prev to x is small, absolutely or relative to prev. */
  predicate SmallStep(prev: real, x: real, stepTol: real) {
    var diffX := AbsFinite(x - prev);
    MinRelative(diffX, diffX, prev) < stepTol
  }

  /** The residual f after a step from the residual oldFun is small,
      absolutely or relative to the change. */
  predicate SmallResidual(oldFun: real, f: real, funTol: real) {
    MinRelative(AbsFinite(f), f - oldFun, oldFun) < funTol
  }

  /** The convergence test after an outer iteration from prev to x: both the
      step and the residual are small. */
  predicate Converged(h: Handle, prev: real, x: real, funTol: real, stepTol: real) {
    SmallStep(prev, x, stepTol) && SmallResidual(Eval(h, prev).f, Eval(h, x).f, funTol)
  }

  /** y is where the line search from the iterate x stops. */
  ghost predicate LineSearchResult(h: Handle, x: real, y: real) {
    var step := NewtonStep(h, Eval(h, x));
    exists k: nat :: y == TrialPoint(x, step, k) && StopsAt(h, x, Eval(h, x).f, step, k)
  }

  /** Iterate i of a run does not stop the run at once, and iterate i + 1 is
      where the line search from it stops. */
  ghost predicate Link(h: Handle, trace: seq<real>, i: int)
    requires 0 <= i < |trace| - 1
  {
    !Hit(Eval(h, trace[i])) && LineSearchResult(h, trace[i], trace[i + 1])
  }

  /** The outer iteration that produced iterate i did not pass the
      convergence test. */
  ghost predicate Unconverged(h: Handle, trace: seq<real>, i: int, funTol: real, stepTol: real)
    requires 0 < i < |trace|
  {
    !Converged(h, trace[i - 1], trace[i], funTol, stepTol)
  }

  /** The iterates of a run: each comes from a line search from the one
      before, no iterate but the last has a small residual, and no outer
      iteration but the last passed the convergence test. */
  ghost predicate ValidTrace(h: Handle, trace: seq<real>, funTol: real, stepTol: real) {
    (forall i :: 0 <= i < |trace| - 1 ==> Link(h, trace, i)) &&
    (forall i :: 0 < i < |trace| - 1 ==> Unconverged(h, trace, i, funTol, stepTol))
  }

  /** The shared engine: root starts at root0 and the method returns the last
      iterate; trace records every iterate the outer loop reached. */
  method Newton(h: Handle, root0: real, funTol: real, stepTol: real)
    returns (ok: bool, root: real, ghost trace: seq<real>)
    ensures 1 <= |trace| <= MaxIter + 1 && trace[0] == root0 && root == trace[|trace| - 1]
    ensures ValidTrace(h, trace, ClampTolerance(funTol), ClampTolerance(stepTol))
    ensures ok <==> Hit(Eval(h, root)) ||
                    (|trace| >= 2 && Converged(h, trace[|trace| - 2], root, ClampTolerance(funTol), ClampTolerance(stepTol)))
    ensures !ok ==> |trace| == MaxIter + 1
    ensures Hit(Eval(h, root0)) ==> ok && trace == [root0]
  {
    var funTolC := ClampTolerance(funTol);
    var stepTolC := ClampTolerance(stepTol);
    root := root0;
    trace := [root];
    var y := Eval(h, root);
    if AbsFinite(y.f) < MinPositive {
      return true, root, trace;
    }
    var iter := 0;
    while iter < MaxIter
      invariant 0 <= iter <= MaxIter
      invariant |trace| == iter + 1 && trace[0] == root0 && trace[iter] == root
      invariant y == Eval(h, root) && !Hit(y)
      invariant ValidTrace(h, trace, funTolC, stepTolC)
      invariant iter >= 1 ==> !Converged(h, trace[iter - 1], root, funTolC, stepTolC)
    {
      var oldRoot, oldFun := root, y.f;
      var step := NewtonStep(h, y);
      var hit;
      ghost var k;
      hit, root, y, k := LineSearch(h, oldRoot, oldFun, step);
      assert LineSearchResult(h, oldRoot, root);
      ExtendTrace(h, trace, root, funTolC, stepTolC);
      trace := trace + [root];
      if hit {
        return true, root, trace;
      }
      if SmallStep(oldRoot, root, stepTolC) {
        if SmallResidual(oldFun, y.f, funTolC) {
          return true, root, trace;
        }
      }
      iter := iter + 1;
    }
    ok := false;
  }

  /** Appending the point a line search reached keeps a trace valid, provided
      the iteration that led to its last point did not converge. */
  lemma ExtendTrace(h: Handle, trace: seq<real>, x: real, funTol: real, stepTol: real)
    requires |trace| >= 1 && ValidTrace(h, trace, funTol, stepTol)
    requires !Hit(Eval(h, trace[|trace| - 1]))
    requires LineSearchResult(h, trace[|trace| - 1], x)
    requires |trace| >= 2 ==> !Converged(h, trace[|trace| - 2], trace[|trace| - 1], funTol, stepTol)
    ensures ValidTrace(h, trace + [x], funTol, stepTol)
    ensures |trace + [x]| == |trace| + 1 && (trace + [x])[0] == trace[0]
    ensures (trace + [x])[|trace| - 1] == trace[|trace| - 1] && (trace + [x])[|trace|] == x
  {
    var t := trace + [x];
    forall i | 0 <= i < |t| - 1
      ensures Link(h, t, i)
    {
      if i < |trace| - 1 {
        assert Link(h, trace, i);
      }
    }
    forall i | 0 < i < |t| - 1
      ensures Unconverged(h, t, i, funTol, stepTol)
    {
      if i < |trace| - 1 {
        assert Unconverged(h, trace, i, funTol, stepTol);
      }
    }
  }

  /** A trial point lies within |step| of where the line search started. */
  lemma TrialWithinStep(x: real, step: real, k: nat)
    ensures AbsFinite(TrialPoint(x, step, k) - x) <= AbsFinite(step)
  {
    var a := Halving(k);
    assert TrialPoint(x, step, k) - x == -(a * step);
    if step >= 0.0 {
      assert 0.0 <= a * step <= step;
    } else {
      assert (1.0 - a) * step <= 0.0;
      assert step <= a * step <= 0.0;
      assert AbsFinite(-(a * step)) == -(a * step);
    }
  }

  /** Every iterate of a run is within MAX_STEP of the one before it. */
  lemma {:induction false} StepsBounded(h: Handle, trace: seq<real>, funTol: real, stepTol: real)
    requires ValidTrace(h, trace, funTol, stepTol)
    ensures forall i :: 0 <= i < |trace| - 1 ==> AbsFinite(trace[i + 1] - trace[i]) <= MaxStep
  {
    forall i | 0 <= i < |trace| - 1
      ensures AbsFinite(trace[i + 1] - trace[i]) <= MaxStep
    {
      var x := trace[i];
      var step := NewtonStep(h, Eval(h, x));
      assert Link(h, trace, i);
      var k: nat :| trace[i + 1] == TrialPoint(x, step, k) && StopsAt(h, x, Eval(h, x).f, step, k);
      TrialWithinStep(x, step, k);
    }
  }

  /** A first trial that is neither rejected nor a hit is taken whole: the
      iterate moves by the full clamped Newton step. */
  lemma FullStepAccepted(h: Handle, x: real, y: real)
    requires LineSearchResult(h, x, y)
    requires !Continues(h, x, Eval(h, x).f, NewtonStep(h, Eval(h, x)), 0)
    ensures y == x - NewtonStep(h, Eval(h, x))
  {
    var step := NewtonStep(h, Eval(h, x));
    var k: nat :| y == TrialPoint(x, step, k) && StopsAt(h, x, Eval(h, x).f, step, k);
    assert k == 0;
  }

  /** findRootNewtonFirstOrder: funPtr maps x to (f(x), f'(x)). */
  method FindRootNewtonFirstOrder(funPtr: real -> (real, real), root0: real,
                                  funTol: real := 0.0000000001, stepTol: real := 0.000001)
    returns (ok: bool, root: real, ghost trace: seq<real>)
    ensures 1 <= |trace| <= MaxIter + 1 && trace[0] == root0 && root == trace[|trace| - 1]
    ensures ValidTrace(FirstOrder(funPtr), trace, ClampTolerance(funTol), ClampTolerance(stepTol))
    ensures ok <==> AbsFinite(funPtr(root).0) < MinPositive ||
                    (|trace| >= 2 && Converged(FirstOrder(funPtr), trace[|trace| - 2], root,
                                               ClampTolerance(funTol), ClampTolerance(stepTol)))
    ensures !ok ==> |trace| == MaxIter + 1
    ensures AbsFinite(funPtr(root0).0) < MinPositive ==> ok && root == root0
  {
    ok, root, trace := Newton(FirstOrder(funPtr), root0, funTol, stepTol);
  }

  /** findRootNewtonSecondOrder: funPtr maps x to (f(x), f'(x), f''(x)). */
  method FindRootNewtonSecondOrder(funPtr: real -> (real, real, real), root0: real,
                                   funTol: real := 0.0000000001, stepTol: real := 0.000001)
    returns (ok: bool, root: real, ghost trace: seq<real>)
    ensures 1 <= |trace| <= MaxIter + 1 && trace[0] == root0 && root == trace[|trace| - 1]
    ensures ValidTrace(SecondOrder(funPtr), trace, ClampTolerance(funTol), ClampTolerance(stepTol))
    ensures ok <==> AbsFinite(funPtr(root).0) < MinPositive ||
                    (|trace| >= 2 && Converged(SecondOrder(funPtr), trace[|trace| - 2], root,
                                               ClampTolerance(funTol), ClampTolerance(stepTol)))
    ensures !ok ==> |trace| == MaxIter + 1
    ensures AbsFinite(funPtr(root0).0) < MinPositive ==> ok && root == root0
  {
    ok, root, trace := Newton(SecondOrder(funPtr), root0, funTol, stepTol);
  }
}
