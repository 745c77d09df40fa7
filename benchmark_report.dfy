/**
 * `challenge1`: one pass over the corporate table that writes, per corporate
 * bond and in table order, its benchmark government bond and the spread over
 * it. A report is the sequence of records written before the first failure,
 * with that failure.
 */
module BenchmarkReport {
  import opened Wrappers
  import opened Bonds
  import opened Input
  import opened Benchmark

  /** One line of the benchmark report: bond, benchmark, spread_to_benchmark (unrounded). */
  datatype BenchmarkRecord = BenchmarkRecord(bond: string, benchmark: string, spread: real)

  /** rec names c, the first nearest government bond g, and c's yield minus g's yield. */
  ghost predicate IsBenchmarkRecord(c: Bond, govs: seq<Bond>, rec: BenchmarkRecord) {
    exists g :: IsNearestRow(govs, c.term, g) && rec == BenchmarkRecord(c.name, govs[g].name, c.yld - govs[g].yld)
  }

  /**
   * The benchmark report over two parsed tables: with corporate bonds and no
   * government bond the first lookup fails before any record; otherwise one
   * record per corporate bond.
   */
  ghost predicate IsBenchmarkReport(t: Tables, lines: seq<BenchmarkRecord>, failure: Option<Error>) {
    if t.corporate != [] && t.government == [] then
      lines == [] && failure == Some(EmptyGovernmentTable)
    else
      && failure == None
      && |lines| == |t.corporate|
      && forall i :: 0 <= i < |lines| ==> IsBenchmarkRecord(t.corporate[i], t.government, lines[i])
  }

  /** `challenge1(df)`, with the printed lines returned instead. */
  method Challenge1(rows: seq<Row>, toFloat: string -> Option<real>) returns (lines: seq<BenchmarkRecord>, failure: Option<Error>)
    ensures FormatData(rows, toFloat).Err? ==> lines == [] && failure == Some(NotANumber)
    ensures FormatData(rows, toFloat).Ok? ==> IsBenchmarkReport(FormatData(rows, toFloat).value, lines, failure)
  {
    var tables := FormatData(rows, toFloat);
    if tables.Err? {
      return [], Some(tables.error);
    }
    lines, failure := BenchmarkLoop(tables.value.corporate, tables.value.government);
  }

  /** The `for i in range(corp_bonds.shape[0])` loop of challenge1. */
  method BenchmarkLoop(corpBonds: seq<Bond>, govBonds: seq<Bond>) returns (lines: seq<BenchmarkRecord>, failure: Option<Error>)
    ensures IsBenchmarkReport(Tables(corpBonds, govBonds), lines, failure)
  {
    lines := [];
    ghost var chosen: seq<int> := [];
    for i := 0 to |corpBonds|
      invariant |lines| == |chosen| == i
      invariant i > 0 ==> govBonds != []
      invariant forall k :: 0 <= k < i ==> IsNearestRow(govBonds, corpBonds[k].term, chosen[k])
      invariant forall k :: 0 <= k < i ==> lines[k] == BenchmarkRecord(corpBonds[k].name, govBonds[chosen[k]].name, corpBonds[k].yld - govBonds[chosen[k]].yld)
    {
      var corp := corpBonds[i];
      var best := FindBestBenchmark(corp.term, corp.yld, govBonds);
      if best.Err? {
        return [], Some(best.error);
      }
      ghost var g :| IsNearestRow(govBonds, corp.term, g) && best.value == Choice(govBonds[g].name, corp.yld - govBonds[g].yld);
      lines := lines + [BenchmarkRecord(corp.name, best.value.name, best.value.spread)];
      chosen := chosen + [g];
    }
    failure := None;
    forall k | 0 <= k < |lines|
      ensures IsBenchmarkRecord(corpBonds[k], govBonds, lines[k])
    {
      assert IsNearestRow(govBonds, corpBonds[k].term, chosen[k]);
    }
  }
}
