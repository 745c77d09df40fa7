/**
 * Row labels of the corporate table. Selecting the corporate rows keeps each
 * row's label, its position in the input, and the reporters fetch the i-th
 * corporate bond with `corp_bonds.loc[i]`, a lookup by label. The lookup
 * reaches the i-th corporate bond only when input rows 0 .. i are all
 * corporate; the reporters of this model iterate positionally instead.
 */
module RowLabels {
  import opened Wrappers
  import opened Input

  /**
   * labels is the index of selected, a selection of rows of one kind: the
   * input position of each selected row, increasing, and every row of that
   * kind among them.
   */
  ghost predicate IsIndexOf(labels: seq<nat>, rows: seq<Row>, kind: string, selected: seq<Row>) {
    && |labels| == |selected|
    && (forall p :: 0 <= p < |labels| ==> labels[p] < |rows| && selected[p] == rows[labels[p]])
    && (forall p, q :: 0 <= p < q < |labels| ==> labels[p] < labels[q])
    && (forall j :: 0 <= j < |rows| && rows[j].kind == kind ==> j in labels)
  }

  /** The positions of the rows of one kind, in input order: the index `df.loc[df.type == kind]` keeps. */
  function LabelsOfKind(rows: seq<Row>, kind: string): (r: seq<nat>)
    ensures IsIndexOf(r, rows, kind, RowsOfKind(rows, kind))
    decreases |rows|
  {
    if rows == [] then []
    else
      var n := |rows| - 1;
      SelectLast(rows, kind);
      var labels := LabelsOfKind(rows[..n], kind);
      IndexExtends(rows, kind, labels, RowsOfKind(rows[..n], kind));
      labels + (if rows[n].kind == kind then [n] else [])
  }

  /** Selecting from a table with one more row selects that row last, when it is of the kind. */
  lemma SelectLast(rows: seq<Row>, kind: string)
    requires rows != []
    ensures var n := |rows| - 1;
      RowsOfKind(rows, kind) == RowsOfKind(rows[..n], kind) + (if rows[n].kind == kind then [rows[n]] else [])
  {
    var n := |rows| - 1;
    assert rows[..n] + [rows[n]] == rows;
    RowsOfKindAppend(rows[..n], [rows[n]], kind);
    assert RowsOfKind([rows[n]], kind) == (if rows[n].kind == kind then [rows[n]] else []) + RowsOfKind([], kind);
  }

  /** Appending a row appends its position to the index when the row is of the kind. */
  lemma IndexExtends(rows: seq<Row>, kind: string, labels: seq<nat>, selected: seq<Row>)
    requires rows != []
    requires IsIndexOf(labels, rows[..|rows| - 1], kind, selected)
    ensures var n := |rows| - 1;
      IsIndexOf(labels + (if rows[n].kind == kind then [n] else []), rows, kind,
                selected + (if rows[n].kind == kind then [rows[n]] else []))
  {
    var n := |rows| - 1;
    var all := labels + (if rows[n].kind == kind then [n] else []);
    var extended := selected + (if rows[n].kind == kind then [rows[n]] else []);
    forall p | 0 <= p < |all|
      ensures all[p] < |rows| && extended[p] == rows[all[p]]
    {
      if p < |labels| {
        assert rows[..n][labels[p]] == rows[labels[p]];
      }
    }
    forall j | 0 <= j < |rows| && rows[j].kind == kind
      ensures j in all
    {
      if j < n {
        assert rows[..n][j] == rows[j];
      }
    }
  }

  /** Where label target sits in an index: None when the index does not hold it. */
  function Position(labels: seq<nat>, target: nat): (r: Option<nat>)
    ensures r.None? <==> target !in labels
    ensures r.Some? ==> r.value < |labels| && labels[r.value] == target
  {
    if labels == [] then None
    else if labels[0] == target then Some(0)
    else
      assert labels == [labels[0]] + labels[1..];
      match Position(labels[1..], target)
      case None => None
      case Some(p) => Some(p + 1)
  }

  /**
   * `corp_bonds.loc[i]` as written: the corporate row carrying label i;
   * None stands for the KeyError raised when no corporate row carries it.
   */
  function LocAsWritten(rows: seq<Row>, i: nat): (r: Option<Row>)
    ensures r.Some? ==> r.value in RowsOfKind(rows, Corporate)
  {
    match Position(LabelsOfKind(rows, Corporate), i)
    case None => None
    case Some(p) => Some(RowsOfKind(rows, Corporate)[p])
  }

  /**
   * Label i exists in the corporate table exactly when input row i is
   * corporate, and it then names that input row.
   */
  lemma LocFindsInputRow(rows: seq<Row>, i: nat)
    ensures LocAsWritten(rows, i).Some? <==> i < |rows| && rows[i].kind == Corporate
    ensures LocAsWritten(rows, i).Some? ==> LocAsWritten(rows, i).value == rows[i]
  {
    var labels := LabelsOfKind(rows, Corporate);
    var p := Position(labels, i);
    if p.Some? {
      var corporate := RowsOfKind(rows, Corporate);
      assert corporate[p.value] == rows[i];
      assert corporate[p.value] in corporate;
    }
  }

  /**
   * A government row followed by a corporate row: the corporate table holds
   * one bond, yet the first lookup, `loc[0]`, finds no such label.
   */
  lemma LabelLookupMissesCorporateRow(rows: seq<Row>)
    requires rows == [Row("G1", Government, "9.4 years", "3.70%"), Row("C1", Corporate, "10.3 years", "5.30%")]
    ensures |RowsOfKind(rows, Corporate)| == 1
    ensures LocAsWritten(rows, 0).None?
  {
    assert rows == [rows[0]] + [rows[1]];
    RowsOfKindAppend([rows[0]], [rows[1]], Corporate);
    assert RowsOfKind([rows[0]], Corporate) == RowsOfKind([], Corporate);
    LocFindsInputRow(rows, 0);
  }

  /**
   * The lookup by label fetches every corporate bond, in order, exactly when
   * the corporate rows come first in the input.
   */
  lemma {:induction false} LabelLookupAgreesIffCorporateFirst(rows: seq<Row>)
    ensures var corporate := RowsOfKind(rows, Corporate);
      (forall i :: 0 <= i < |corporate| ==> LocAsWritten(rows, i) == Some(corporate[i])) <==>
      (forall i :: 0 <= i < |corporate| ==> rows[i].kind == Corporate)
  {
    var corporate := RowsOfKind(rows, Corporate);
    var n := |corporate|;
    if forall i :: 0 <= i < n ==> rows[i].kind == Corporate {
      LeadingRowsSelected(rows, n);
      forall i | 0 <= i < n
        ensures LocAsWritten(rows, i) == Some(corporate[i])
      {
        LocFindsInputRow(rows, i);
      }
    } else {
      var i :| 0 <= i < n && rows[i].kind != Corporate;
      LocFindsInputRow(rows, i);
    }
  }

  /** When the first n rows are corporate, they are the first n corporate bonds. */
  lemma LeadingRowsSelected(rows: seq<Row>, n: nat)
    requires n <= |RowsOfKind(rows, Corporate)|
    requires forall i :: 0 <= i < n ==> rows[i].kind == Corporate
    ensures forall i :: 0 <= i < n ==> RowsOfKind(rows, Corporate)[i] == rows[i]
  {
    assert rows == rows[..n] + rows[n..];
    RowsOfKindAppend(rows[..n], rows[n..], Corporate);
    RowsOfKindAll(rows[..n], Corporate);
  }
}
