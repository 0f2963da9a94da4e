/** The fraction guard of `model.shapes.colorShape`. The page lookups become
    two flags (does the shape exist, does it hold a fill element); the fill
    percentage and the gradient it paints are presentation and stay out. */
module Shapes {
  import opened Wrappers
  import opened JsText
  import opened Fractions

  /** A numeric fraction that fills at most the whole shape: denominator not
      0, numerator not above it. */
  predicate IsProperFraction(fraction: string) {
    match NumberPair(fraction)
    case Some((n, d)) => 0 < d && n <= d
    case None => false
  }

  /** `colorShape(shapeId, fraction)`: whether the shape gets painted. It fails
      for a missing shape or fill element, for a text that does not split into
      two pieces, and for a denominator of 0 or a numerator above the
      denominator. Both tests compare with NaN, which is never equal and never
      greater, so a piece that is not a number does not make it fail. */
  function ColorShape(shapeFound: bool, fillFound: bool, fraction: string): (ok: bool)
    ensures ok ==> shapeFound && fillFound && |Split(fraction, '/')| == 2
    ensures ok ==> !ToDecimal(fraction).Null?
    ensures NumberPair(fraction).Some? ==> (ok <==> shapeFound && fillFound && IsProperFraction(fraction))
  {
    if !shapeFound || !fillFound then false
    else
      match SplitFraction(fraction)
      case None => false
      case Some(Pieces(num, den)) =>
        !(den == Some(0) || (num.Some? && den.Some? && num.value > den.value))
  }

  /** On a text in the accepted format the guard accepts exactly the proper
      fractions, i.e. those whose value lies in [0, 1]. */
  lemma ColorShapeValidFormat(shapeFound: bool, fillFound: bool, fraction: string)
    requires IsValidFormat(fraction)
    ensures ColorShape(shapeFound, fillFound, fraction) <==> shapeFound && fillFound && IsProperFraction(fraction)
    ensures ColorShape(true, true, fraction) <==> Compare(fraction, "1/1") != Some('>') && !ToDecimal(fraction).Null?
  {
    ValidFormatNumbers(fraction);
    var (n, d) := NumberPair(fraction).value;
    FormatFractionRoundTrip(1, 1);
    assert FormatFraction(1, 1) == "1/1";
  }

  /** The guard lets a non-numeric piece through: "x/y" paints the shape. */
  lemma ColorShapeAdmitsNaN()
    ensures ColorShape(true, true, "x/y")
    ensures ColorShape(true, true, "3/y")
  {
    assert "x" + "/" + "y" == "x/y" && "3" + "/" + "y" == "3/y";
    assert Join(["x", "y"], '/') == "x/y";
    assert Join(["3", "y"], '/') == "3/y";
    SplitJoin(["x", "y"], '/');
    SplitJoin(["3", "y"], '/');
  }
}
