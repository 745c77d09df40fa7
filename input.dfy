/**
 * `format_data`: split the raw table into its corporate and government rows
 * (input order kept) and turn the `term` and `yield` cells into numbers by
 * parsing the text before the first `' '` or `'%'`. Conversion of that text
 * to a number (`float`) is a parameter: None stands for the ValueError that
 * float raises on text that is not a number.
 */
module Input {
  import opened Wrappers
  import opened Bonds

  const Corporate: string := "corporate"
  const Government: string := "government"

  /** One row of the input table, every cell still text, e.g. ("C1", "corporate", "10.3 years", "5.30%"). */
  datatype Row = Row(bond: string, kind: string, term: string, yld: string)

  /** The two tables format_data returns. */
  datatype Tables = Tables(corporate: seq<Bond>, government: seq<Bond>)

  /** `df.loc[df.type == kind]`: the rows of one kind, in input order. */
  function RowsOfKind(rows: seq<Row>, kind: string): (r: seq<Row>)
    ensures |r| <= |rows|
    ensures forall x :: x in r <==> x in rows && x.kind == kind
  {
    if rows == [] then []
    else (if rows[0].kind == kind then [rows[0]] else []) + RowsOfKind(rows[1..], kind)
  }

  /** Filtering commutes with concatenation: the filter keeps the input order. */
  lemma {:induction false} RowsOfKindAppend(a: seq<Row>, b: seq<Row>, kind: string)
    ensures RowsOfKind(a + b, kind) == RowsOfKind(a, kind) + RowsOfKind(b, kind)
  {
    if a == [] {
      assert a + b == b;
    } else {
      assert (a + b)[1..] == a[1..] + b;
      RowsOfKindAppend(a[1..], b, kind);
    }
  }

  /** A filter keeps a table whose every row is of its kind unchanged. */
  lemma {:induction false} RowsOfKindAll(rows: seq<Row>, kind: string)
    requires forall i :: 0 <= i < |rows| ==> rows[i].kind == kind
    ensures RowsOfKind(rows, kind) == rows
  {
    if rows != [] {
      RowsOfKindAll(rows[1..], kind);
    }
  }

  /** When every row is corporate or government, the two tables share out all rows between them. */
  lemma {:induction false} PartitionCoversRows(rows: seq<Row>)
    requires forall i :: 0 <= i < |rows| ==> rows[i].kind == Corporate || rows[i].kind == Government
    ensures |RowsOfKind(rows, Corporate)| + |RowsOfKind(rows, Government)| == |rows|
  {
    if rows != [] {
      PartitionCoversRows(rows[1..]);
    }
  }

  /** `s.find(c)`: the first index of c in s, or -1 when c does not occur. */
  function Find(s: string, c: char): (r: int)
    ensures -1 <= r < |s|
    ensures r == -1 <==> c !in s
    ensures r >= 0 ==> s[r] == c && c !in s[..r]
  {
    if s == [] then -1
    else if s[0] == c then 0
    else
      var k := Find(s[1..], c);
      assert s[1..][..k + 1] == s[1..k + 2] by { assert k + 1 <= |s[1..]| || k == -1; }
      if k == -1 then -1 else k + 1
  }

  /** `s[:stop]` with Python's reading of a negative stop as counting from the end. */
  function SliceTo(s: string, stop: int): string {
    if stop >= 0 then s[..if stop <= |s| then stop else |s|]
    else if |s| + stop >= 0 then s[..|s| + stop]
    else []
  }

  /**
   * `x[:x.find(delim)]`: the text before the first delimiter. Without a
   * delimiter find gives -1, and the slice drops only the last character.
   */
  function NumericPrefix(s: string, delim: char): (r: string)
    ensures r <= s
    ensures delim in s ==> delim !in r && |r| < |s| && s[|r|] == delim
    ensures delim !in s ==> |r| == if s == [] then 0 else |s| - 1
  {
    SliceTo(s, Find(s, delim))
  }

  /** The number the term cell parses to: the text before the first space. */
  function TermOf(r: Row, toFloat: string -> Option<real>): Option<real> {
    toFloat(NumericPrefix(r.term, ' '))
  }

  /** The number the yield cell parses to: the text before the first percent sign. */
  function YieldOf(r: Row, toFloat: string -> Option<real>): Option<real> {
    toFloat(NumericPrefix(r.yld, '%'))
  }

  /** Every term and yield cell of the rows parses. */
  ghost predicate Parseable(rows: seq<Row>, toFloat: string -> Option<real>) {
    forall i :: 0 <= i < |rows| ==> TermOf(rows[i], toFloat).Some? && YieldOf(rows[i], toFloat).Some?
  }

  /** bonds is rows with each name kept and each term and yield parsed, row for row. */
  ghost predicate ParsedFrom(bonds: seq<Bond>, rows: seq<Row>, toFloat: string -> Option<real>)
    requires Parseable(rows, toFloat)
  {
    && |bonds| == |rows|
    && forall i :: 0 <= i < |rows| ==>
         bonds[i] == Bond(rows[i].bond, TermOf(rows[i], toFloat).value, YieldOf(rows[i], toFloat).value)
  }

  /** The two `apply(lambda x: float(...))` column rewrites on one table. */
  function ParseBonds(rows: seq<Row>, toFloat: string -> Option<real>): (r: Result<seq<Bond>, Error>)
    ensures r.Ok? <==> Parseable(rows, toFloat)
    ensures r.Ok? ==> ParsedFrom(r.value, rows, toFloat)
    ensures r.Err? ==> r.error == NotANumber
  {
    if rows == [] then Ok([])
    else
      var term := TermOf(rows[0], toFloat);
      var yld := YieldOf(rows[0], toFloat);
      var rest := ParseBonds(rows[1..], toFloat);
      assert forall i :: 1 <= i < |rows| ==> rows[i] == rows[1..][i - 1];
      if term.None? || yld.None? then Err(NotANumber)
      else if rest.Err? then rest
      else Ok([Bond(rows[0].bond, term.value, yld.value)] + rest.value)
  }

  /** `format_data(df)`: the corporate and the government table, parsed. */
  function FormatData(rows: seq<Row>, toFloat: string -> Option<real>): (r: Result<Tables, Error>)
    ensures r.Ok? <==> Parseable(RowsOfKind(rows, Corporate), toFloat) && Parseable(RowsOfKind(rows, Government), toFloat)
    ensures r.Ok? ==> ParsedFrom(r.value.corporate, RowsOfKind(rows, Corporate), toFloat)
    ensures r.Ok? ==> ParsedFrom(r.value.government, RowsOfKind(rows, Government), toFloat)
    ensures r.Err? ==> r.error == NotANumber
  {
    var corp := ParseBonds(RowsOfKind(rows, Corporate), toFloat);
    var gov := ParseBonds(RowsOfKind(rows, Government), toFloat);
    if corp.Err? then Err(corp.error)
    else if gov.Err? then Err(gov.error)
    else Ok(Tables(corp.value, gov.value))
  }
}
