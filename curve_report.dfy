/**
 * `challenge2`: one pass over the corporate table that writes, per corporate
 * bond and in table order, the spread of its yield over the yield curve read
 * at its term. A report is the sequence of records written before the first
 * failure, with that failure.
 */
module CurveReport {
  import opened Wrappers
  import opened Bonds
  import opened Input
  import opened Curve

  /** One line of the curve report: bond, spread_to_curve (unrounded). */
  datatype CurveRecord = CurveRecord(bond: string, spread: real)

  /**
   * The spread of one corporate bond over the curve: bracket its term, read
   * the curve at its term, subtract (lines 164-173 of the loop body).
   */
  function SpreadToCurve(c: Bond, govs: seq<Bond>): (r: Result<real, Error>)
    ensures r.Err? <==> ClosestToCorp(c.term, govs).Err?
    ensures r.Err? ==> r.error == ClosestToCorp(c.term, govs).error
    ensures r.Err? ==> r.error == NoUpperBracket || r.error == NoLowerBracket
    ensures r.Ok? ==>
      var b := ClosestToCorp(c.term, govs).value;
      && OnLine(b.upperTerm, b.upperYield, b.lowerTerm, b.lowerYield, c.term, c.yld - r.value)
      && c.yld - Max(b.upperYield, b.lowerYield) <= r.value <= c.yld - Min(b.upperYield, b.lowerYield)
  {
    match ClosestToCorp(c.term, govs)
    case Err(e) => Err(e)
    case Ok(b) =>
      InterpolationBetweenYields(b.upperTerm, b.upperYield, b.lowerTerm, b.lowerYield, c.term);
      var curveYield := LinearInterpolation(b.upperTerm, b.upperYield, b.lowerTerm, b.lowerYield, c.term);
      assert c.yld - (c.yld - curveYield.value) == curveYield.value;
      Ok(c.yld - curveYield.value)
  }

  /**
   * A corporate bond of term 10.3 and yield 5.3 against government bonds of
   * terms 9.4 and 12 with yields 3.7 and 4.8: the curve reads
   * 3.7 + 0.9 * 1.1 / 2.6 at 10.3, a spread of 317/260 (about 1.22).
   */
  lemma CurveSpreadExample(govs: seq<Bond>)
    requires govs == [Bond("G1", 9.4, 3.7), Bond("G2", 12.0, 4.8)]
    ensures SpreadToCurve(Bond("C1", 10.3, 5.3), govs) == Ok(317.0 / 260.0)
  {
    TestNoChoice(govs);
  }

  /** rec is the curve line of corporate bond c: its name and its spread to the curve. */
  ghost predicate IsCurveLine(c: Bond, govs: seq<Bond>, rec: CurveRecord) {
    rec.bond == c.name && SpreadToCurve(c, govs) == Ok(rec.spread)
  }

  /**
   * The curve report over two parsed tables: the records of the leading
   * corporate bonds that bracket, in order, and the failure of the first one
   * that does not.
   */
  ghost predicate IsCurveReport(t: Tables, lines: seq<CurveRecord>, failure: Option<Error>) {
    && |lines| <= |t.corporate|
    && (forall i :: 0 <= i < |lines| ==> IsCurveLine(t.corporate[i], t.government, lines[i]))
    && (failure.None? <==> |lines| == |t.corporate|)
    && (failure.Some? ==> SpreadToCurve(t.corporate[|lines|], t.government) == Err(failure.value))
  }

  /** `challenge2(df)`, with the printed lines returned instead. */
  method Challenge2(rows: seq<Row>, toFloat: string -> Option<real>) returns (lines: seq<CurveRecord>, failure: Option<Error>)
    ensures FormatData(rows, toFloat).Err? ==> lines == [] && failure == Some(NotANumber)
    ensures FormatData(rows, toFloat).Ok? ==> IsCurveReport(FormatData(rows, toFloat).value, lines, failure)
  {
    var tables := FormatData(rows, toFloat);
    if tables.Err? {
      return [], Some(tables.error);
    }
    lines, failure := CurveLoop(tables.value.corporate, tables.value.government);
  }

  /** The `for i in range(corp_bonds.shape[0])` loop of challenge2. */
  method CurveLoop(corpBonds: seq<Bond>, govBonds: seq<Bond>) returns (lines: seq<CurveRecord>, failure: Option<Error>)
    ensures IsCurveReport(Tables(corpBonds, govBonds), lines, failure)
  {
    lines := [];
    for i := 0 to |corpBonds|
      invariant |lines| == i
      invariant forall k :: 0 <= k < i ==> IsCurveLine(corpBonds[k], govBonds, lines[k])
    {
      var corp := corpBonds[i];
      var spread := SpreadToCurve(corp, govBonds);
      if spread.Err? {
        return lines, Some(spread.error);
      }
      var line := CurveRecord(corp.name, spread.value);
      assert IsCurveLine(corp, govBonds, line);
      lines := lines + [line];
    }
    failure := None;
  }
}
