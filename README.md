# Spread calculator, modelled in Dafny

`spread_analysis.py` reads a table of bonds, each of them corporate or
government, with a term ("10.3 years") and a yield ("5.30%"). It prints two
reports:

- challenge 1: for each corporate bond, the benchmark. This is the government
  bond whose term is nearest, the first such row on a tie. The report also
  gives the spread, which is the corporate yield minus the benchmark yield.
- challenge 2: for each corporate bond, the spread to the government curve.
  The bond's term is bracketed by the nearest government term at or above it
  and the nearest government term below it. The curve's yield at the term is
  read on the straight line through those two bonds, and the spread is the
  corporate yield minus that yield.

The model is split into these modules:

- `Wrappers` holds `Option` and `Result`.
- `Bonds` holds the parsed `Bond`, the error kinds, and the columns
  `gov_term - corporate_term` and its absolute value.
- `Series` holds pandas `idxmin` over a filtered column. It returns the
  position of the first smallest kept value.
- `Input` holds `format_data`: the split by `type`, `str.find`, the Python
  prefix slice `x[:x.find(c)]` and the parse of both columns.
- `Benchmark` holds `find_best_benchmark`.
- `Curve` holds `closest_to_corp` and `linear_interpolation`.
- `BenchmarkReport` and `CurveReport` hold `challenge1` and `challenge2`.
  Each is a method with the loop over the corporate table. It returns the
  records it would print and the error that stops it, if any.
- `RowLabels` holds the finding below about `corp_bonds.loc[i]`.

Terms and yields are exact `real`s. The exceptions the Python code raises on
the modelled paths are `Error` values:

- `float()` failing is `NotANumber`.
- `idxmin` on an empty series is `EmptyGovernmentTable`, `NoUpperBracket` or
  `NoLowerBracket`.
- `linear_interpolation` with two equal terms divides by zero. With plain
  Python floats this raises `ZeroDivisionError`, which `DegenerateBracket`
  reproduces. With numpy scalars, as `challenge2` passes them, the result is
  `inf` or `nan` instead, with no exception.

`float()` itself is the parameter `toFloat`. A result of `None` stands for its
`ValueError`.

One further outcome is not an `Error` value: the `KeyError` of
`corp_bonds.loc[i]` (spread_analysis.py:135, 158). The model's reporters do
not raise it. It is modelled separately in `RowLabels` (see the finding
below).

The code does not reject a term or yield that lacks its delimiter. `find`
returns -1 there, so `x[:-1]` drops the last character and the rest goes to
`float()` (`Input.NumericPrefix`).

## Model

| member | source | states |
|---|---|---|
| Series.IdxMin | spread_analysis.py:77 | Returns None exactly when no value is kept. Otherwise it returns a kept position whose value is at most every kept value and strictly below every earlier kept value, so the first minimum wins. |
| Input.RowsOfKind | spread_analysis.py:38-39 | The selected rows are exactly the input rows of that `type`, and there are no more of them than input rows. |
| Input.RowsOfKindAppend | spread_analysis.py:38-39 | Selecting from a concatenation is the concatenation of the selections, so the selection keeps input order. |
| Input.PartitionCoversRows | spread_analysis.py:38-39 | When every row is corporate or government, the two tables together have as many rows as the input. |
| Input.Find | spread_analysis.py:45-53 | `str.find` returns -1 exactly when the character is absent. Otherwise it returns an index holding the character, with no occurrence before it. |
| Input.NumericPrefix | spread_analysis.py:45-53 | `x[:x.find(c)]` is a prefix of x. When c occurs, the prefix is everything before its first occurrence. When c is absent, x loses its last character. |
| Input.ParseBonds | spread_analysis.py:44-53 | Parsing succeeds exactly when every term prefix and yield prefix converts. It then yields one bond per row, in order, with the row's name and the converted numbers. Otherwise it fails with NotANumber. |
| Input.FormatData | spread_analysis.py:30-54 | Succeeds exactly when both tables parse. It then returns the corporate rows and the government rows, each parsed in input order. Otherwise it fails with NotANumber. |
| Benchmark.NearestIndex | spread_analysis.py:75-77 | For a non-empty table, returns a row whose term is nearest the corporate term, with no earlier row equally near. |
| Benchmark.FindBestBenchmark | spread_analysis.py:61-82 | Fails exactly when the government table is empty. Otherwise it names the first nearest government bond, and the spread is the corporate yield minus that bond's yield. |
| Benchmark.FindBestBenchmarkChooses | spread_analysis.py:75-81 | Conversely, any first nearest row is the one reported, with its spread. |
| Benchmark.TieGoesToFirstRow | spread_analysis.py:77 | When two government terms are equally near, the first row is the benchmark. |
| Benchmark.TestBothSides | test_spread_analysis.py:13-26 | Government terms 9.4 and 12 at corporate term 10.3 give G1 with spread 1.6. |
| Benchmark.TestShorterOnly | test_spread_analysis.py:43-57 | Government terms 9.4 and 10.1, both shorter than 10.3, give G2 with spread 0.5. |
| Benchmark.TestLongerOnly | test_spread_analysis.py:59-73 | The same table at corporate term 8.3 gives G1 with spread 1.6. |
| Curve.UpperIndex | spread_analysis.py:103-105 | Returns None exactly when every government term is below the corporate term. Otherwise it returns the first row with the least term at or above it. |
| Curve.LowerIndex | spread_analysis.py:103-106 | Returns None exactly when every government term is at or above the corporate term. Otherwise it returns the first row with the greatest term below it. |
| Curve.ClosestToCorp | spread_analysis.py:89-111 | Fails with NoUpperBracket exactly when every term is below the corporate term. It fails with NoLowerBracket exactly when the table is non-empty and every term is at or above it. Otherwise it returns the upper and lower rows' terms and yields, with lower term < corporate term <= upper term. |
| Curve.BracketIsTight | spread_analysis.py:101-106 | No government term lies strictly between the two bracket terms. |
| Curve.ClosestToCorpChooses | spread_analysis.py:101-111 | Conversely, whenever an upper row and a lower row exist, they are the bracket reported. |
| Curve.TestNoChoice | test_spread_analysis.py:95-109 | Terms 9.4 and 12 bracket 10.3 as (12.0, 4.8, 9.4, 3.7). |
| Curve.TestMultiGreaterChoice | test_spread_analysis.py:111-125 | Terms 9.4, 10.5, 12 and 19 bracket 10.3 as (10.5, 4.8, 9.4, 3.7). |
| Curve.TestMultiLowerChoice | test_spread_analysis.py:127-141 | The same table brackets 12.5 as (19.0, 9.0, 12.0, 5.6). |
| Curve.TestMultiMixChoice | test_spread_analysis.py:143-157 | The same table brackets 10.8 as (12.0, 5.6, 10.5, 4.8). |
| Curve.LinearInterpolation | spread_analysis.py:114-118 | Fails exactly when the two terms are equal (a division by zero). Otherwise the result lies on the line through both points and equals each point's yield at that point's term. |
| Curve.InterpolationBetweenYields | spread_analysis.py:114-118 | For a term between the two terms, the interpolated yield lies between the two yields. |
| Curve.InterpolationSymmetric | spread_analysis.py:114-118 | Swapping the two points gives the same result. |
| CurveReport.SpreadToCurve | spread_analysis.py:164-173 | Fails exactly when the term cannot be bracketed, with the same error. Otherwise the corporate yield minus the spread lies on the bracket line. The spread also lies between the corporate yield minus the larger bracket yield and minus the smaller one. So the division by zero never happens here. |
| CurveReport.CurveSpreadExample | spread_analysis.py:164-173 | A corporate bond at 10.3 years and 5.3% between government bonds at 9.4 (3.7%) and 12 (4.8%) has spread 317/260, about 1.22. |
| BenchmarkReport.Challenge1 | spread_analysis.py:130-141 | An input that does not parse gives no line and NotANumber. Otherwise the result is the benchmark report of the parsed tables. |
| BenchmarkReport.BenchmarkLoop | spread_analysis.py:132-141 | With corporate bonds and no government bond, the first lookup fails before any line. Otherwise there is one line per corporate bond, in order, naming its first nearest government bond with the yield difference. |
| CurveReport.Challenge2 | spread_analysis.py:154-174 | An input that does not parse gives no line and NotANumber. Otherwise the result is the curve report of the parsed tables. |
| CurveReport.CurveLoop | spread_analysis.py:156-174 | Returns the curve lines of the leading corporate bonds, in order. It stops at the first bond that cannot be bracketed and reports that bond's error. There is no error exactly when every bond has its line. |
| RowLabels.LabelsOfKind | spread_analysis.py:38-41 | The index kept by the boolean selection holds the input position of each selected row, one per row and increasing, and includes every row of that kind. |
| RowLabels.LocAsWritten | spread_analysis.py:135-137 | `corp_bonds.loc[i]` as written (here and at lines 158-160): looks label i up in the corporate table's index. None stands for the KeyError, and a row found always belongs to the corporate table. |
| RowLabels.LocFindsInputRow | spread_analysis.py:135-137 | `corp_bonds.loc[i]` (`RowLabels.LocAsWritten`) is a lookup of label i in that index. It finds a row exactly when input row i is corporate, and the row it finds is that input row. |
| RowLabels.LabelLookupMissesCorporateRow | spread_analysis.py:135-137 | A government row followed by a corporate row: the corporate table has one bond, but `loc[0]` finds none. |
| RowLabels.LabelLookupAgreesIffCorporateFirst | spread_analysis.py:158-160 | `loc[i]` fetches the i-th corporate bond for every i of the corporate table exactly when those leading input rows are all corporate. |

## Left out

- Reading the CSV file (`pd.read_csv`), `INPUT_FILE` and the `__main__` block are I/O. The model starts from the rows.
- Printing the header lines and the records is I/O. The reporters return the records instead.
- The `'%.2f'` formatting of spreads is left out. Spreads are exact and unrounded, and the `%` sign of the printed line is not modelled.
- `float()` is the parameter `toFloat` and is not modelled. Its `ValueError` is its `None`.
- Binary floating point is left out, and all arithmetic is exact. Because of this, the unit test at test_spread_analysis.py:75-89 is not reproduced. Its two terms, 9.6 and 10.2, are equally near 9.9 in exact arithmetic, so the first row (G1) wins. Only a floating-point rounding makes G2 nearer there.
- Curve.LinearInterpolation: with numpy scalars, division by zero gives `inf`/`nan` with a warning rather than an exception. The model reports `DegenerateBracket` instead, as for plain Python floats, which raise `ZeroDivisionError`. `CurveReport.SpreadToCurve` shows this case cannot arise from `challenge2`.
- The duplicated test name at test_spread_analysis.py:28 is shadowed by the one at line 43. Only the latter is modelled, and it checks the same case.
- BenchmarkReport.Challenge1 and CurveReport.Challenge2 iterate over the corporate table by position rather than by label. See the finding below.

## Findings

| source | as written | input that shows it | evidently intended | confidence | as-written member | corrected member |
|---|---|---|---|---|---|---|
| spread_analysis.py:135-137, 158-160 | `corp_bonds.loc[i]` looks up label i. The corporate table keeps the labels of the input rows, so the i-th corporate bond has label i only when input rows 0..i are all corporate. | A government row G1 (9.4 years, 3.70%) followed by a corporate row C1 (10.3 years, 5.30%): `corp_bonds.loc[0]` raises KeyError. | Visit the i-th corporate bond by position (`iloc[i]`, or `reset_index`). | high, not executed | RowLabels.LabelLookupMissesCorporateRow | BenchmarkReport.BenchmarkLoop |
