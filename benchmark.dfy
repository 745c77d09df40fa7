/**
 * `find_best_benchmark`: for one corporate bond, the government bond whose
 * term is nearest, and the spread of the corporate yield over its yield.
 */
module Benchmark {
  import opened Wrappers
  import opened Bonds
  import opened Series

  /** Row k is the first government row whose term is nearest t. */
  ghost predicate IsNearestRow(govs: seq<Bond>, t: real, k: int) {
    && 0 <= k < |govs|
    && (forall j :: 0 <= j < |govs| ==> Abs(govs[k].term - t) <= Abs(govs[j].term - t))
    && (forall j :: 0 <= j < k ==> Abs(govs[k].term - t) < Abs(govs[j].term - t))
  }

  /** The label `difference.idxmin()` picks over the whole, unfiltered column. */
  function NearestIndex(govs: seq<Bond>, t: real): (k: nat)
    requires |govs| > 0
    ensures IsNearestRow(govs, t, k)
  {
    var keys := Distances(govs, t);
    var every := seq(|govs|, _ => true);
    assert forall j :: 0 <= j < |govs| ==> every[j] && keys[j] == Abs(govs[j].term - t);
    IdxMin(keys, every).value
  }

  /** At most one row is the first nearest one. */
  lemma NearestRowUnique(govs: seq<Bond>, t: real, k1: int, k2: int)
    requires IsNearestRow(govs, t, k1) && IsNearestRow(govs, t, k2)
    ensures k1 == k2
  {
    assert Abs(govs[k1].term - t) == Abs(govs[k2].term - t);
  }

  /** The benchmark's name and the spread of the corporate yield over it, before rounding. */
  datatype Choice = Choice(name: string, spread: real)

  function FindBestBenchmark(corporateTerm: real, corporateYield: real, govs: seq<Bond>): (r: Result<Choice, Error>)
    ensures r.Err? <==> govs == []
    ensures r.Err? ==> r.error == EmptyGovernmentTable
    ensures r.Ok? ==> exists k :: IsNearestRow(govs, corporateTerm, k)
                               && r.value == Choice(govs[k].name, corporateYield - govs[k].yld)
  {
    if govs == [] then Err(EmptyGovernmentTable)
    else
      var k := NearestIndex(govs, corporateTerm);
      Ok(Choice(govs[k].name, corporateYield - govs[k].yld))
  }

  /** Conversely, the first nearest row is the benchmark find_best_benchmark reports. */
  lemma FindBestBenchmarkChooses(corporateTerm: real, corporateYield: real, govs: seq<Bond>, k: int)
    requires IsNearestRow(govs, corporateTerm, k)
    ensures FindBestBenchmark(corporateTerm, corporateYield, govs) == Ok(Choice(govs[k].name, corporateYield - govs[k].yld))
  {
    NearestRowUnique(govs, corporateTerm, k, NearestIndex(govs, corporateTerm));
  }

  /** Of two equally near government bonds, the one listed first is the benchmark. */
  lemma TieGoesToFirstRow(corporateTerm: real, corporateYield: real, a: Bond, b: Bond)
    requires Abs(a.term - corporateTerm) == Abs(b.term - corporateTerm)
    ensures FindBestBenchmark(corporateTerm, corporateYield, [a, b]) == Ok(Choice(a.name, corporateYield - a.yld))
  {
    assert IsNearestRow([a, b], corporateTerm, 0);
    FindBestBenchmarkChooses(corporateTerm, corporateYield, [a, b], 0);
  }

  /** The unit test with one government bond on each side of the corporate term. */
  lemma TestBothSides(govs: seq<Bond>)
    requires govs == [Bond("G1", 9.4, 3.7), Bond("G2", 12.0, 4.8)]
    ensures FindBestBenchmark(10.3, 5.3, govs) == Ok(Choice("G1", 1.6))
  {
    assert IsNearestRow(govs, 10.3, 0);
    FindBestBenchmarkChooses(10.3, 5.3, govs, 0);
  }

  /** The unit test with both government bonds shorter than the corporate bond. */
  lemma TestShorterOnly(govs: seq<Bond>)
    requires govs == [Bond("G1", 9.4, 3.7), Bond("G2", 10.1, 4.8)]
    ensures FindBestBenchmark(10.3, 5.3, govs) == Ok(Choice("G2", 0.5))
  {
    assert IsNearestRow(govs, 10.3, 1);
    FindBestBenchmarkChooses(10.3, 5.3, govs, 1);
  }

  /** The unit test with both government bonds longer than the corporate bond. */
  lemma TestLongerOnly(govs: seq<Bond>)
    requires govs == [Bond("G1", 9.4, 3.7), Bond("G2", 10.1, 4.8)]
    ensures FindBestBenchmark(8.3, 5.3, govs) == Ok(Choice("G1", 1.6))
  {
    assert IsNearestRow(govs, 8.3, 0);
    FindBestBenchmarkChooses(8.3, 5.3, govs, 0);
  }
}
