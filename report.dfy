/**
 * `generate_html_report`: one table row per label of every record read
 * back from the JSON results, showing the same fields as the CSV but
 * with the parents joined by ", ".
 */
module Report {
  import opened Labels
  import opened Batch

  /** The separator of parent names in the report. */
  const ReportParentSeparator: string := ", "

  /** The cells of one `<tr>` of the report: image, label name, confidence and parents. */
  datatype HtmlRow = HtmlRow(image: string, name: string, confidence: real, parents: string)

  /**
   * The table row for one label of a record: the same image, label name
   * and confidence as the CSV row of that label, and the same parent names
   * joined with ", ".
   */
  function HtmlRowOf(image: string, lab: Label): (r: HtmlRow)
    ensures var csv := RowOf(image, lab);
      r.image == csv.image && r.name == csv.name && r.confidence == csv.confidence
    ensures r.parents == JoinWith(ReportParentSeparator, lab.parents)
  {
    HtmlRow(image, lab.name, lab.confidence, JoinWith(ReportParentSeparator, lab.parents))
  }

  /** The table rows for a sequence of records, record after record. */
  function ReportRows(data: seq<LabelResult>): seq<HtmlRow> {
    if data == [] then []
    else
      var last := data[|data| - 1];
      ReportRows(data[..|data| - 1]) +
      seq(|last.labels|, k requires 0 <= k < |last.labels| => HtmlRowOf(last.image, last.labels[k]))
  }

  /** The nested loop of `generate_html_report` over the records and their labels. */
  method BuildReportRows(data: seq<LabelResult>) returns (rows: seq<HtmlRow>)
    ensures rows == ReportRows(data)
  {
    rows := [];
    var i := 0;
    while i < |data|
      invariant 0 <= i <= |data|
      invariant rows == ReportRows(data[..i])
    {
      var item := data[i];
      ghost var before := rows;
      var j := 0;
      while j < |item.labels|
        invariant 0 <= j <= |item.labels|
        invariant |rows| == |before| + j
        invariant rows[..|before|] == before
        invariant forall k :: 0 <= k < j ==> rows[|before| + k] == HtmlRowOf(item.image, item.labels[k])
      {
        rows := rows + [HtmlRowOf(item.image, item.labels[j])];
        j := j + 1;
      }
      assert data[..i + 1][..i] == data[..i];
      assert rows == before + seq(|item.labels|, k requires 0 <= k < |item.labels| => HtmlRowOf(item.image, item.labels[k]));
      i := i + 1;
    }
    assert data[..i] == data;
  }

  /** The i-th table row is the row of the i-th (record, label) pair. */
  lemma {:induction false} ReportRowsFollowEntries(data: seq<LabelResult>)
    ensures |ReportRows(data)| == |Entries(data)|
    ensures forall i :: 0 <= i < |Entries(data)| ==>
      ReportRows(data)[i] == HtmlRowOf(Entries(data)[i].image, Entries(data)[i].lab)
    decreases |data|
  {
    if data != [] {
      var init := data[..|data| - 1];
      ReportRowsFollowEntries(init);
      var e, h := Entries(data), ReportRows(data);
      forall i | 0 <= i < |e|
        ensures h[i] == HtmlRowOf(e[i].image, e[i].lab)
      {
        if i < |Entries(init)| {
          assert e[i] == Entries(init)[i] && h[i] == ReportRows(init)[i];
        }
      }
    }
  }

  /**
   * The report shows the CSV's data rows in the same order: the same
   * number of rows and, row by row, the same image, label name and
   * confidence, the parents being the same names joined with ", " in the
   * report and with ";" in the CSV.
   */
  lemma ReportMatchesCsv(data: seq<LabelResult>)
    ensures |ReportRows(data)| == |CsvRows(data)| == |Entries(data)|
    ensures forall i :: 0 <= i < |Entries(data)| ==>
      var html, csv := ReportRows(data)[i], CsvRows(data)[i];
      html.image == csv.image && html.name == csv.name && html.confidence == csv.confidence &&
      html.parents == JoinWith(ReportParentSeparator, Entries(data)[i].lab.parents) &&
      csv.parents == JoinWith(CsvParentSeparator, Entries(data)[i].lab.parents)
  {
    ReportRowsFollowEntries(data);
    CsvRowsFollowEntries(data);
  }

  /** When no parent name holds ";", the parent names can be read back from a CSV row. */
  lemma CsvParentsRecoverable(data: seq<LabelResult>, i: nat)
    requires i < |Entries(data)|
    requires |Entries(data)[i].lab.parents| >= 1
    requires forall k :: 0 <= k < |Entries(data)[i].lab.parents| ==> ';' !in Entries(data)[i].lab.parents[k]
    ensures i < |CsvRows(data)| && Split(CsvRows(data)[i].parents, ';') == Entries(data)[i].lab.parents
  {
    CsvRowsFollowEntries(data);
    SplitJoin(Entries(data)[i].lab.parents, ';');
  }
}
