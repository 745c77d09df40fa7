/**
 * `closest_to_corp` and `linear_interpolation`: the two government bonds that
 * bracket a corporate term, and the yield on the straight line through them.
 */
module Curve {
  import opened Wrappers
  import opened Bonds
  import opened Series

  /** Row u has a term at or above t, the least such term, and no earlier row has that term. */
  ghost predicate IsUpperRow(govs: seq<Bond>, t: real, u: int) {
    && 0 <= u < |govs|
    && govs[u].term >= t
    && (forall j :: 0 <= j < |govs| && govs[j].term >= t ==> govs[u].term <= govs[j].term)
    && (forall j :: 0 <= j < u && govs[j].term >= t ==> govs[u].term < govs[j].term)
  }

  /** Row l has a term below t, the greatest such term, and no earlier row has that term. */
  ghost predicate IsLowerRow(govs: seq<Bond>, t: real, l: int) {
    && 0 <= l < |govs|
    && govs[l].term < t
    && (forall j :: 0 <= j < |govs| && govs[j].term < t ==> govs[j].term <= govs[l].term)
    && (forall j :: 0 <= j < l && govs[j].term < t ==> govs[j].term < govs[l].term)
  }

  /** `difference[difference >= 0].idxmin()`. */
  function UpperIndex(govs: seq<Bond>, t: real): (r: Option<nat>)
    ensures r.None? <==> forall j :: 0 <= j < |govs| ==> govs[j].term < t
    ensures r.Some? ==> IsUpperRow(govs, t, r.value)
  {
    var difference := Differences(govs, t);
    var above := seq(|govs|, j requires 0 <= j < |govs| => difference[j] >= 0.0);
    assert forall j :: 0 <= j < |govs| ==> difference[j] == govs[j].term - t && (above[j] <==> govs[j].term >= t);
    IdxMin(difference, above)
  }

  /** `difference[difference < 0].abs().idxmin()`. */
  function LowerIndex(govs: seq<Bond>, t: real): (r: Option<nat>)
    ensures r.None? <==> forall j :: 0 <= j < |govs| ==> govs[j].term >= t
    ensures r.Some? ==> IsLowerRow(govs, t, r.value)
  {
    var difference := Differences(govs, t);
    var distance := Distances(govs, t);
    var below := seq(|govs|, j requires 0 <= j < |govs| => difference[j] < 0.0);
    assert forall j :: 0 <= j < |govs| ==>
      (below[j] <==> govs[j].term < t) && (below[j] ==> distance[j] == t - govs[j].term);
    IdxMin(distance, below)
  }

  /** The result of closest_to_corp, in its order: upper term and yield, then lower term and yield. */
  datatype Bracket = Bracket(upperTerm: real, upperYield: real, lowerTerm: real, lowerYield: real)

  /**
   * `closest_to_corp(corporate_term, government_bonds)`. The upper side is
   * reduced first, so a table with neither side fails on the upper one.
   */
  function ClosestToCorp(corporateTerm: real, govs: seq<Bond>): (r: Result<Bracket, Error>)
    ensures r == Err(NoUpperBracket) <==> forall j :: 0 <= j < |govs| ==> govs[j].term < corporateTerm
    ensures r == Err(NoLowerBracket) <==>
      (exists j :: 0 <= j < |govs| && govs[j].term >= corporateTerm) && (forall j :: 0 <= j < |govs| ==> govs[j].term >= corporateTerm)
    ensures r.Err? ==> r.error == NoUpperBracket || r.error == NoLowerBracket
    ensures r.Ok? ==> exists u, l :: IsUpperRow(govs, corporateTerm, u) && IsLowerRow(govs, corporateTerm, l)
                                  && r.value == Bracket(govs[u].term, govs[u].yld, govs[l].term, govs[l].yld)
    ensures r.Ok? ==> r.value.lowerTerm < corporateTerm <= r.value.upperTerm
  {
    var upper := UpperIndex(govs, corporateTerm);
    var lower := LowerIndex(govs, corporateTerm);
    if upper.None? then Err(NoUpperBracket)
    else if lower.None? then Err(NoLowerBracket)
    else
      var u, l := upper.value, lower.value;
      Ok(Bracket(govs[u].term, govs[u].yld, govs[l].term, govs[l].yld))
  }

  /** No government term lies strictly between the two bracket terms. */
  lemma BracketIsTight(corporateTerm: real, govs: seq<Bond>, j: int)
    requires ClosestToCorp(corporateTerm, govs).Ok?
    requires 0 <= j < |govs|
    ensures var b := ClosestToCorp(corporateTerm, govs).value;
            govs[j].term <= b.lowerTerm || b.upperTerm <= govs[j].term
  {
    var b := ClosestToCorp(corporateTerm, govs).value;
    var u, l :| IsUpperRow(govs, corporateTerm, u) && IsLowerRow(govs, corporateTerm, l)
             && b == Bracket(govs[u].term, govs[u].yld, govs[l].term, govs[l].yld);
    if govs[j].term >= corporateTerm {
      assert govs[u].term <= govs[j].term;
    } else {
      assert govs[j].term <= govs[l].term;
    }
  }

  /** At most one row is the upper row, and at most one the lower row. */
  lemma BracketRowsUnique(govs: seq<Bond>, t: real, u1: int, u2: int, l1: int, l2: int)
    requires IsUpperRow(govs, t, u1) && IsUpperRow(govs, t, u2)
    requires IsLowerRow(govs, t, l1) && IsLowerRow(govs, t, l2)
    ensures u1 == u2 && l1 == l2
  {
    assert govs[u1].term == govs[u2].term;
    assert govs[l1].term == govs[l2].term;
  }

  /** Conversely, the upper and lower rows are the bracket closest_to_corp reports. */
  lemma ClosestToCorpChooses(corporateTerm: real, govs: seq<Bond>, u: int, l: int)
    requires IsUpperRow(govs, corporateTerm, u) && IsLowerRow(govs, corporateTerm, l)
    ensures ClosestToCorp(corporateTerm, govs) == Ok(Bracket(govs[u].term, govs[u].yld, govs[l].term, govs[l].yld))
  {
    var upper := UpperIndex(govs, corporateTerm);
    var lower := LowerIndex(govs, corporateTerm);
    BracketRowsUnique(govs, corporateTerm, u, upper.value, l, lower.value);
  }

  /** The unit test with one government bond on each side of the corporate term. */
  lemma TestNoChoice(govs: seq<Bond>)
    requires govs == [Bond("G1", 9.4, 3.7), Bond("G2", 12.0, 4.8)]
    ensures ClosestToCorp(10.3, govs) == Ok(Bracket(12.0, 4.8, 9.4, 3.7))
  {
    assert IsUpperRow(govs, 10.3, 1) && IsLowerRow(govs, 10.3, 0);
    ClosestToCorpChooses(10.3, govs, 1, 0);
  }

  /** The unit test with one government bond below the corporate term and three above it. */
  lemma TestMultiGreaterChoice(govs: seq<Bond>)
    requires govs == [Bond("G1", 9.4, 3.7), Bond("G2", 10.5, 4.8), Bond("G3", 12.0, 5.6), Bond("G4", 19.0, 9.0)]
    ensures ClosestToCorp(10.3, govs) == Ok(Bracket(10.5, 4.8, 9.4, 3.7))
  {
    assert forall j :: 0 <= j < |govs| ==> govs[j].term in {9.4, 10.5, 12.0, 19.0};
    assert IsUpperRow(govs, 10.3, 1) && IsLowerRow(govs, 10.3, 0);
    ClosestToCorpChooses(10.3, govs, 1, 0);
  }

  /** The unit test with three government bonds below the corporate term and one above it. */
  lemma TestMultiLowerChoice(govs: seq<Bond>)
    requires govs == [Bond("G1", 9.4, 3.7), Bond("G2", 10.5, 4.8), Bond("G3", 12.0, 5.6), Bond("G4", 19.0, 9.0)]
    ensures ClosestToCorp(12.5, govs) == Ok(Bracket(19.0, 9.0, 12.0, 5.6))
  {
    assert forall j :: 0 <= j < |govs| ==> govs[j].term in {9.4, 10.5, 12.0, 19.0};
    assert IsUpperRow(govs, 12.5, 3) && IsLowerRow(govs, 12.5, 2);
    ClosestToCorpChooses(12.5, govs, 3, 2);
  }

  /** The unit test with two government bonds on each side of the corporate term. */
  lemma TestMultiMixChoice(govs: seq<Bond>)
    requires govs == [Bond("G1", 9.4, 3.7), Bond("G2", 10.5, 4.8), Bond("G3", 12.0, 5.6), Bond("G4", 19.0, 9.0)]
    ensures ClosestToCorp(10.8, govs) == Ok(Bracket(12.0, 5.6, 10.5, 4.8))
  {
    assert forall j :: 0 <= j < |govs| ==> govs[j].term in {9.4, 10.5, 12.0, 19.0};
    assert IsUpperRow(govs, 10.8, 2) && IsLowerRow(govs, 10.8, 1);
    ClosestToCorpChooses(10.8, govs, 2, 1);
  }

  /** (t, y) lies on the straight line through (t1, y1) and (t2, y2). */
  ghost predicate OnLine(t1: real, y1: real, t2: real, y2: real, t: real, y: real) {
    (y - y2) * (t1 - t2) == (t - t2) * (y1 - y2)
  }

  /**
   * `linear_interpolation(g1_term, g1_yield, g2_term, g2_yield, c1_term)`:
   * the yield at c1_term on the line through (g1_term, g1_yield) and
   * (g2_term, g2_yield); two points with the same term divide by zero.
   */
  function LinearInterpolation(g1Term: real, g1Yield: real, g2Term: real, g2Yield: real, c1Term: real): (r: Result<real, Error>)
    ensures r.Err? <==> g1Term == g2Term
    ensures r.Err? ==> r.error == DegenerateBracket
    ensures r.Ok? ==> OnLine(g1Term, g1Yield, g2Term, g2Yield, c1Term, r.value)
    ensures r.Ok? && c1Term == g1Term ==> r.value == g1Yield
    ensures r.Ok? && c1Term == g2Term ==> r.value == g2Yield
  {
    if g1Term == g2Term then Err(DegenerateBracket)
    else
      LineFormula(g1Term, g1Yield, g2Term, g2Yield, c1Term);
      Ok(g2Yield + (c1Term - g2Term) * (g1Yield - g2Yield) / (g1Term - g2Term))
  }

  /** The two-point formula of linear_interpolation puts (c, y) on the line and meets both points. */
  lemma LineFormula(t1: real, y1: real, t2: real, y2: real, c: real)
    requires t1 != t2
    ensures var y := y2 + (c - t2) * (y1 - y2) / (t1 - t2);
            OnLine(t1, y1, t2, y2, c, y) && (c == t1 ==> y == y1) && (c == t2 ==> y == y2)
  {
  }

  /** Between the two terms, the interpolated yield lies between the two yields. */
  lemma InterpolationBetweenYields(g1Term: real, g1Yield: real, g2Term: real, g2Yield: real, c1Term: real)
    requires g1Term != g2Term
    requires Min(g1Term, g2Term) <= c1Term <= Max(g1Term, g2Term)
    ensures LinearInterpolation(g1Term, g1Yield, g2Term, g2Yield, c1Term).Ok?
    ensures Min(g1Yield, g2Yield) <= LinearInterpolation(g1Term, g1Yield, g2Term, g2Yield, c1Term).value <= Max(g1Yield, g2Yield)
  {
    var d := g1Term - g2Term;
    var share := (c1Term - g2Term) / d;
    ShareIsFraction(c1Term - g2Term, d);
    MulDiv(c1Term - g2Term, g1Yield - g2Yield, d);
    ScaledStep(share, g1Yield - g2Yield);
    assert LinearInterpolation(g1Term, g1Yield, g2Term, g2Yield, c1Term).value == g2Yield + share * (g1Yield - g2Yield);
  }

  /** Where t lies between two terms, as a fraction of the distance between them. */
  lemma ShareIsFraction(offset: real, d: real)
    requires d != 0.0
    requires Min(0.0, d) <= offset <= Max(0.0, d)
    ensures 0.0 <= offset / d <= 1.0
  {
    var q := offset / d;
    assert q * d == offset;
    if d < 0.0 {
      assert q * (-d) == -offset;
      assert (1.0 - q) * (-d) == offset - d;
    } else {
      assert (1.0 - q) * d == d - offset;
    }
  }

  /** Dividing a product divides either factor. */
  lemma MulDiv(a: real, b: real, d: real)
    requires d != 0.0
    ensures a * b / d == (a / d) * b
  {
  }

  /** A fraction of a step lies between no step and the whole step. */
  lemma ScaledStep(share: real, step: real)
    requires 0.0 <= share <= 1.0
    ensures Min(0.0, step) <= share * step <= Max(0.0, step)
  {
    assert (1.0 - share) * step == step - share * step;
    if step >= 0.0 {
      assert share * step >= 0.0 && (1.0 - share) * step >= 0.0;
    } else {
      assert share * step <= 0.0 && (1.0 - share) * step <= 0.0;
    }
  }

  /** The two points can be given in either order: the line through them is the same. */
  lemma InterpolationSymmetric(g1Term: real, g1Yield: real, g2Term: real, g2Yield: real, c1Term: real)
    ensures LinearInterpolation(g1Term, g1Yield, g2Term, g2Yield, c1Term)
         == LinearInterpolation(g2Term, g2Yield, g1Term, g1Yield, c1Term)
  {
    if g1Term != g2Term {
      var d := g1Term - g2Term;
      assert (c1Term - g1Term) * (g2Yield - g1Yield) / (g2Term - g1Term)
          == (c1Term - g2Term - d) * (g1Yield - g2Yield) / d;
      assert (c1Term - g2Term - d) * (g1Yield - g2Yield) / d
          == (c1Term - g2Term) * (g1Yield - g2Yield) / d - (g1Yield - g2Yield);
    }
  }
}
