/** The non-virtual and default members of ProbabilityDistribution<T> in
    distributions/ProbabilityDistribution.hpp: the survival function derived
    from F, the batch fills of an output vector, and the fit-error message.
    The virtual F and S a concrete distribution supplies are passed in as
    functions. */
module ProbabilityDistribution {

  /** The default S: P(X > x) is the complement of P(X <= x). */
  function DefaultS<T>(F: T -> real, x: T): (r: real)
    ensures r + F(x) == 1.0
  {
    1.0 - F(x)
  }

  /** g applied to every element of x, in order. */
  function Pointwise<T>(g: T -> real, x: seq<T>): (r: seq<real>)
    ensures |r| == |x|
    ensures forall i :: 0 <= i < |x| ==> r[i] == g(x[i])
  {
    seq(|x|, i requires 0 <= i < |x| => g(x[i]))
  }

  /** The output vector y after a batch fill from x: left as it was when x is
      longer, otherwise its first |x| entries replaced by g(x[i]). */
  function Filled<T>(g: T -> real, x: seq<T>, y: seq<real>): (r: seq<real>)
    ensures |r| == |y|
    ensures |x| > |y| ==> r == y
    ensures |x| <= |y| ==> forall i :: 0 <= i < |x| ==> r[i] == g(x[i])
    ensures forall i :: |x| <= i < |y| ==> r[i] == y[i]
  {
    if |x| > |y| then y else Pointwise(g, x) + y[|x|..]
  }

  /** Filling twice from the same input is filling once. */
  lemma FilledIdempotent<T>(g: T -> real, x: seq<T>, y: seq<real>)
    ensures Filled(g, x, Filled(g, x, y)) == Filled(g, x, y)
  {
    var once := Filled(g, x, y);
    var twice := Filled(g, x, once);
    assert |twice| == |once|;
    forall i | 0 <= i < |once|
      ensures twice[i] == once[i]
    {
    }
  }

  /** With the default S, the two batch fills give complementary entries
      wherever both wrote. */
  lemma SurvivalComplementsCdf<T>(F: T -> real, x: seq<T>, y: seq<real>, z: seq<real>)
    requires |x| <= |y| && |x| <= |z|
    ensures forall i :: 0 <= i < |x| ==>
              Filled(F, x, y)[i] + Filled(t => DefaultS(F, t), x, z)[i] == 1.0
  {
    forall i | 0 <= i < |x|
      ensures Filled(F, x, y)[i] + Filled(t => DefaultS(F, t), x, z)[i] == 1.0
    {
      assert Filled(t => DefaultS(F, t), x, z)[i] == DefaultS(F, x[i]);
    }
  }

  /** The loop shared by CumulativeDistributionFunction and SurvivalFunction. */
  method Fill<T>(g: T -> real, x: seq<T>, y: array<real>)
    modifies y
    ensures y[..] == Filled(g, x, old(y[..]))
  {
    var size := |x|;
    if size > y.Length {
      return;
    }
    var i := 0;
    while i != size
      invariant 0 <= i <= size
      invariant y[..i] == Pointwise(g, x[..i])
      invariant y[i..] == old(y[..])[i..]
    {
      y[i] := g(x[i]);
      i := i + 1;
      assert y[..i] == y[..i - 1] + [y[i - 1]];
    }
    assert y[..] == y[..size] + y[size..];
  }

  /** CumulativeDistributionFunction: y[i] := F(x[i]) for every i < |x|,
      nothing when y is too short for x. */
  method CumulativeDistributionFunction<T>(F: T -> real, x: seq<T>, y: array<real>)
    modifies y
    ensures |x| > y.Length ==> y[..] == old(y[..])
    ensures |x| <= y.Length ==> forall i :: 0 <= i < |x| ==> y[i] == F(x[i])
    ensures forall i :: |x| <= i < y.Length ==> y[i] == old(y[i])
  {
    Fill(F, x, y);
  }

  /** SurvivalFunction: the same fill with the distribution's S. */
  method SurvivalFunction<T>(S: T -> real, x: seq<T>, y: array<real>)
    modifies y
    ensures |x| > y.Length ==> y[..] == old(y[..])
    ensures |x| <= y.Length ==> forall i :: 0 <= i < |x| ==> y[i] == S(x[i])
    ensures forall i :: |x| <= i < y.Length ==> y[i] == old(y[i])
  {
    Fill(S, x, y);
  }

  /** FIT_ERROR_TYPE. A value outside the six enumerators, which the switch
      sends to its default label, is Unlisted. */
  datatype FitErrorType =
    | WrongSample
    | NotApplicable
    | WrongReturn
    | TooFewElements
    | WrongLevel
    | UndefinedError
    | Unlisted(code: int)

  /** The fixed sentence for each kind of fit error. */
  function FitErrorMessage(fet: FitErrorType): string {
    match fet
    case WrongSample => "Sample couldn't be generated by this distribution. "
    case NotApplicable => "Method cannot be applied here. "
    case WrongReturn => "Method returns invalid parameters. "
    case TooFewElements => "Sample is too small. "
    case WrongLevel => "Significance level should be positive and smaller than 1. "
    case UndefinedError => "Unknown type of error. "
    case Unlisted(_) => "Unknown type of error. "
  }

  /** fitErrorDescription: the distribution's name, ": ", the sentence for
      the error kind and the caller's explanation, in that order. */
  function FitErrorDescription(name: string, fet: FitErrorType, explanation: string): (r: string)
    ensures |r| == |name| + 2 + |FitErrorMessage(fet)| + |explanation|
    ensures r[..|name|] == name && r[|name|..|name| + 2] == ": "
    ensures r[|name| + 2..|r| - |explanation|] == FitErrorMessage(fet)
    ensures r[|r| - |explanation|..] == explanation
  {
    var error := name + ": ";
    var error' := error + FitErrorMessage(fet);
    error' + explanation
  }

  /** Only UNDEFINED_ERROR and the unlisted values share a sentence. */
  predicate Listed(fet: FitErrorType) {
    !fet.UndefinedError? && !fet.Unlisted?
  }

  lemma MessagesDistinct(e1: FitErrorType, e2: FitErrorType)
    requires Listed(e1) || Listed(e2)
    requires FitErrorMessage(e1) == FitErrorMessage(e2)
    ensures e1 == e2
  {
  }

  /** For a given name and explanation, the description tells every listed
      error kind apart from every other kind. */
  lemma DescriptionDeterminesKind(name: string, e1: FitErrorType, e2: FitErrorType, explanation: string)
    requires Listed(e1) || Listed(e2)
    requires FitErrorDescription(name, e1, explanation) == FitErrorDescription(name, e2, explanation)
    ensures e1 == e2
  {
    var r := FitErrorDescription(name, e1, explanation);
    assert FitErrorMessage(e1) == r[|name| + 2..|r| - |explanation|] == FitErrorMessage(e2);
    MessagesDistinct(e1, e2);
  }
}
