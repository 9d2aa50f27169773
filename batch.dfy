/**
 * `bulk_detect_and_save`: detect the labels of every listed key in turn,
 * keep the record of every key whose call succeeded, and write one CSV
 * row per label of each kept record after the header row.
 *
 * The detection service is given as the sequence of its answers, one per
 * key in the order the keys are visited: either a DetectLabels answer or
 * a ClientError.
 */
module Batch {
  import opened Wrappers
  import opened Labels
  import opened Sequences

  /** What the service did for one key. */
  datatype Detection = Detected(response: DetectResponse) | ClientError(code: string)

  /** A CSV data row: image, label name, confidence and the parents joined with ";". */
  datatype CsvRow = CsvRow(image: string, name: string, confidence: real, parents: string)

  /** The CSV file: its header row and its data rows. */
  datatype CsvFile = CsvFile(header: seq<string>, rows: seq<CsvRow>)

  const CsvHeader: seq<string> := ["image", "label", "confidence", "parents"]

  /** The separator of parent names in the CSV. */
  const CsvParentSeparator: string := ";"

  /**
   * The row written for one label of a record: the record's image, the
   * label's name and confidence, and its parent names joined with ";",
   * which a split at ';' reads back when no name holds one.
   */
  function RowOf(image: string, lab: Label): (row: CsvRow)
    ensures row.image == image && row.name == lab.name && row.confidence == lab.confidence
    ensures NoSeparatorIn(lab.parents) ==> Split(row.parents, ';') == lab.parents
  {
    if NoSeparatorIn(lab.parents) then
      SplitJoin(lab.parents, ';');
      CsvRow(image, lab.name, lab.confidence, JoinWith(CsvParentSeparator, lab.parents))
    else
      CsvRow(image, lab.name, lab.confidence, JoinWith(CsvParentSeparator, lab.parents))
  }

  /** There is at least one parent name and none holds the CSV separator. */
  predicate NoSeparatorIn(parents: seq<string>) {
    |parents| >= 1 && forall k :: 0 <= k < |parents| ==> ';' !in parents[k]
  }

  /** The rows written for one record, one per label in order. */
  function LabelRows(res: LabelResult): (rows: seq<CsvRow>)
    ensures |rows| == |res.labels|
    ensures forall k :: 0 <= k < |rows| ==> rows[k] == RowOf(res.image, res.labels[k])
  {
    seq(|res.labels|, k requires 0 <= k < |res.labels| => RowOf(res.image, res.labels[k]))
  }

  /** The data rows for a sequence of records, record after record. */
  function CsvRows(results: seq<LabelResult>): seq<CsvRow> {
    if results == [] then []
    else CsvRows(results[..|results| - 1]) + LabelRows(results[|results| - 1])
  }

  /** One label of one record, with the record's address: what one output row shows. */
  datatype Entry = Entry(image: string, lab: Label)

  /** The (record, label) pairs of a sequence of records, record after record and label after label. */
  function Entries(results: seq<LabelResult>): seq<Entry> {
    if results == [] then []
    else
      var last := results[|results| - 1];
      Entries(results[..|results| - 1]) +
      seq(|last.labels|, k requires 0 <= k < |last.labels| => Entry(last.image, last.labels[k]))
  }

  /** The number of labels over all records. */
  function TotalLabels(results: seq<LabelResult>): nat {
    if results == [] then 0
    else TotalLabels(results[..|results| - 1]) + |results[|results| - 1].labels|
  }

  /** The records kept for the keys visited, in key order: one per successful call. */
  function Successes(bucket: string, keys: seq<string>, detections: seq<Detection>): (r: seq<LabelResult>)
    requires |detections| == |keys|
    ensures |r| <= |keys|
    ensures (forall i :: 0 <= i < |detections| ==> detections[i].ClientError?) ==> r == []
  {
    if keys == [] then []
    else
      var n := |keys| - 1;
      Successes(bucket, keys[..n], detections[..n]) +
      (match detections[n]
       case Detected(resp) => [Detect(bucket, keys[n], resp)]
       case ClientError(_) => [])
  }

  /** The positions of the keys whose call succeeded, in increasing order. */
  function SucceededAt(detections: seq<Detection>): seq<nat> {
    KeptIndices((d: Detection) => d.Detected?, detections)
  }

  /** The inner loop of `bulk_detect_and_save`: one row per label of a record, in order. */
  method WriteLabelRows(res: LabelResult) returns (written: seq<CsvRow>)
    ensures written == LabelRows(res)
  {
    written := [];
    var j := 0;
    while j < |res.labels|
      invariant 0 <= j <= |res.labels|
      invariant written == LabelRows(res)[..j]
    {
      assert LabelRows(res)[..j + 1] == LabelRows(res)[..j] + [RowOf(res.image, res.labels[j])];
      written := written + [RowOf(res.image, res.labels[j])];
      j := j + 1;
    }
    assert LabelRows(res)[..j] == LabelRows(res);
  }

  /**
   * Visit every key, record the result of each successful call and write
   * its rows; a key whose call raised a ClientError is skipped and the
   * loop goes on with the next key.
   */
  method BulkDetect(bucket: string, keys: seq<string>, detections: seq<Detection>)
    returns (results: seq<LabelResult>, csv: CsvFile)
    requires |detections| == |keys|
    ensures results == Successes(bucket, keys, detections)
    ensures csv.header == CsvHeader
    ensures csv.rows == CsvRows(results)
  {
    results := [];
    var rows: seq<CsvRow> := [];
    var i := 0;
    while i < |keys|
      invariant 0 <= i <= |keys|
      invariant results == Successes(bucket, keys[..i], detections[..i])
      invariant rows == CsvRows(results)
    {
      SuccessesStep(bucket, keys, detections, i);
      if detections[i].Detected? {
        var res := Detect(bucket, keys[i], detections[i].response);
        var written := WriteLabelRows(res);
        CsvRowsSnoc(results, res);
        results := results + [res];
        rows := rows + written;
      }
      i := i + 1;
    }
    assert keys[..i] == keys && detections[..i] == detections;
    csv := CsvFile(CsvHeader, rows);
  }

  lemma SuccessesStep(bucket: string, keys: seq<string>, detections: seq<Detection>, i: nat)
    requires |detections| == |keys| && i < |keys|
    ensures Successes(bucket, keys[..i + 1], detections[..i + 1]) ==
      Successes(bucket, keys[..i], detections[..i]) +
      (if detections[i].Detected? then [Detect(bucket, keys[i], detections[i].response)] else [])
  {
    assert keys[..i + 1][..i] == keys[..i];
    assert detections[..i + 1][..i] == detections[..i];
  }

  lemma CsvRowsSnoc(results: seq<LabelResult>, res: LabelResult)
    ensures CsvRows(results + [res]) == CsvRows(results) + LabelRows(res)
  {
    assert (results + [res])[..|results|] == results;
  }

  /** The i-th data row is the row of the i-th (record, label) pair. */
  lemma {:induction false} CsvRowsFollowEntries(results: seq<LabelResult>)
    ensures |CsvRows(results)| == |Entries(results)|
    ensures forall i :: 0 <= i < |Entries(results)| ==>
      CsvRows(results)[i] == RowOf(Entries(results)[i].image, Entries(results)[i].lab)
    decreases |results|
  {
    if results != [] {
      var init := results[..|results| - 1];
      CsvRowsFollowEntries(init);
      var e, c := Entries(results), CsvRows(results);
      forall i | 0 <= i < |e|
        ensures c[i] == RowOf(e[i].image, e[i].lab)
      {
        if i < |Entries(init)| {
          assert e[i] == Entries(init)[i] && c[i] == CsvRows(init)[i];
        }
      }
    }
  }

  /** There is one data row per label of every record. */
  lemma {:induction false} RowCount(results: seq<LabelResult>)
    ensures |CsvRows(results)| == TotalLabels(results)
    decreases |results|
  {
    if results != [] {
      RowCount(results[..|results| - 1]);
    }
  }

  /** One record is kept per successful call. */
  lemma {:induction false} SuccessesLength(bucket: string, keys: seq<string>, detections: seq<Detection>)
    requires |detections| == |keys|
    ensures |Successes(bucket, keys, detections)| == |SucceededAt(detections)|
    decreases |keys|
  {
    if keys != [] {
      var n := |keys| - 1;
      assert detections[..n] == detections[..|detections| - 1];
      SuccessesLength(bucket, keys[..n], detections[..n]);
    }
  }

  /** The k-th record kept is the one made for the key of the k-th successful call. */
  lemma {:induction false} SuccessesAt(bucket: string, keys: seq<string>, detections: seq<Detection>)
    requires |detections| == |keys|
    ensures |Successes(bucket, keys, detections)| == |SucceededAt(detections)|
    ensures forall k :: 0 <= k < |SucceededAt(detections)| ==>
      SucceededAt(detections)[k] < |keys| &&
      detections[SucceededAt(detections)[k]].Detected? &&
      Successes(bucket, keys, detections)[k] ==
        Detect(bucket, keys[SucceededAt(detections)[k]], detections[SucceededAt(detections)[k]].response)
    decreases |keys|
  {
    SuccessesLength(bucket, keys, detections);
    var isDetected := (d: Detection) => d.Detected?;
    KeptIndicesIncrease(isDetected, detections);
    KeptIndicesExactly(isDetected, detections);
    if keys != [] {
      var n := |keys| - 1;
      assert detections[..n] == detections[..|detections| - 1];
      SuccessesAt(bucket, keys[..n], detections[..n]);
      KeptIndicesIncrease(isDetected, detections[..n]);
      forall i | 0 <= i < n
        ensures keys[..n][i] == keys[i] && detections[..n][i] == detections[i]
      {
      }
    }
  }

  /**
   * The records kept are, in key order, exactly the records of the keys
   * whose call succeeded: the successful positions increase, every
   * successful position is among them, and the k-th record is made from
   * the key at the k-th successful position.
   */
  lemma ResultsFollowKeys(bucket: string, keys: seq<string>, detections: seq<Detection>)
    requires |detections| == |keys|
    ensures Increasing(SucceededAt(detections), |keys|)
    ensures forall i :: 0 <= i < |keys| ==> (i in SucceededAt(detections) <==> detections[i].Detected?)
    ensures |Successes(bucket, keys, detections)| == |SucceededAt(detections)|
    ensures forall k :: 0 <= k < |SucceededAt(detections)| ==>
      Successes(bucket, keys, detections)[k] ==
        Detect(bucket, keys[SucceededAt(detections)[k]], detections[SucceededAt(detections)[k]].response)
  {
    var isDetected := (d: Detection) => d.Detected?;
    KeptIndicesIncrease(isDetected, detections);
    KeptIndicesExactly(isDetected, detections);
    SuccessesAt(bucket, keys, detections);
  }

  /** A record's address is that of a key whose call succeeded. */
  lemma {:induction false} SuccessImage(bucket: string, keys: seq<string>, detections: seq<Detection>, res: LabelResult)
    requires |detections| == |keys|
    requires res in Successes(bucket, keys, detections)
    ensures exists i :: 0 <= i < |keys| && detections[i].Detected? && res.image == ImageUri(bucket, keys[i])
    decreases |keys|
  {
    var n := |keys| - 1;
    if res !in Successes(bucket, keys[..n], detections[..n]) {
      assert detections[n].Detected? && res.image == ImageUri(bucket, keys[n]);
    } else {
      SuccessImage(bucket, keys[..n], detections[..n], res);
      var i :| 0 <= i < n && detections[..n][i].Detected? && res.image == ImageUri(bucket, keys[..n][i]);
      assert keys[..n][i] == keys[i] && detections[..n][i] == detections[i];
    }
  }

  /** Every data row is the row of some label of some record. */
  lemma {:induction false} RowHasSource(results: seq<LabelResult>, row: CsvRow)
    requires row in CsvRows(results)
    ensures
      exists r, k :: 0 <= r < |results| && 0 <= k < |results[r].labels| &&
        row == RowOf(results[r].image, results[r].labels[k])
    decreases |results|
  {
    var n := |results| - 1;
    var init := results[..n];
    if row in CsvRows(init) {
      RowHasSource(init, row);
      var r, k :| 0 <= r < |init| && 0 <= k < |init[r].labels| && row == RowOf(init[r].image, init[r].labels[k]);
      assert results[r] == init[r];
    } else {
      var k :| 0 <= k < |LabelRows(results[n])| && LabelRows(results[n])[k] == row;
      assert row == RowOf(results[n].image, results[n].labels[k]);
    }
  }

  /** Every label of every record has its data row. */
  lemma {:induction false} RowWritten(results: seq<LabelResult>, r: nat, k: nat)
    requires r < |results| && k < |results[r].labels|
    ensures RowOf(results[r].image, results[r].labels[k]) in CsvRows(results)
    decreases |results|
  {
    var n := |results| - 1;
    var init := results[..n];
    if r < n {
      assert init[r] == results[r];
      RowWritten(init, r, k);
    } else {
      assert LabelRows(results[n])[k] == RowOf(results[n].image, results[n].labels[k]);
    }
  }

  /** A row is written exactly for each label of each record, with the record's address. */
  lemma RowsExactly(results: seq<LabelResult>, row: CsvRow)
    ensures row in CsvRows(results) <==>
      exists r, k :: 0 <= r < |results| && 0 <= k < |results[r].labels| &&
        row == RowOf(results[r].image, results[r].labels[k])
  {
    if row in CsvRows(results) {
      RowHasSource(results, row);
    }
    forall r, k | 0 <= r < |results| && 0 <= k < |results[r].labels| &&
        row == RowOf(results[r].image, results[r].labels[k])
      ensures row in CsvRows(results)
    {
      RowWritten(results, r, k);
    }
  }

  /**
   * A key whose call raised a ClientError, and that no successful call
   * shares, has neither a record nor a CSV row.
   */
  lemma FailedKeyAbsent(bucket: string, keys: seq<string>, detections: seq<Detection>, i: nat)
    requires |detections| == |keys|
    requires i < |keys| && detections[i].ClientError?
    requires forall j :: 0 <= j < |keys| && keys[j] == keys[i] ==> detections[j].ClientError?
    ensures forall res :: res in Successes(bucket, keys, detections) ==> res.image != ImageUri(bucket, keys[i])
    ensures forall row :: row in CsvRows(Successes(bucket, keys, detections)) ==> row.image != ImageUri(bucket, keys[i])
  {
    var results := Successes(bucket, keys, detections);
    forall res | res in results
      ensures res.image != ImageUri(bucket, keys[i])
    {
      SuccessImage(bucket, keys, detections, res);
      var j :| 0 <= j < |keys| && detections[j].Detected? && res.image == ImageUri(bucket, keys[j]);
      if res.image == ImageUri(bucket, keys[i]) {
        ImageUriInjective(bucket, keys[j], keys[i]);
      }
    }
    forall row | row in CsvRows(results)
      ensures row.image != ImageUri(bucket, keys[i])
    {
      RowsExactly(results, row);
      var r, k :| 0 <= r < |results| && 0 <= k < |results[r].labels| &&
        row == RowOf(results[r].image, results[r].labels[k]);
      assert results[r] in results;
    }
  }

  /** Three keys whose second call fails: the first and third are recorded, in that order. */
  lemma SecondOfThreeFails(bucket: string, k1: string, k2: string, k3: string,
                           r1: DetectResponse, code: string, r3: DetectResponse)
    ensures Successes(bucket, [k1, k2, k3], [Detected(r1), ClientError(code), Detected(r3)]) ==
      [Detect(bucket, k1, r1), Detect(bucket, k3, r3)]
  {
    var keys, dets := [k1, k2, k3], [Detected(r1), ClientError(code), Detected(r3)];
    var a, b := Detect(bucket, k1, r1), Detect(bucket, k3, r3);
    assert keys[..0] == [] && dets[..0] == [];
    SuccessesStep(bucket, keys, dets, 0);
    assert Successes(bucket, keys[..1], dets[..1]) == [a];
    SuccessesStep(bucket, keys, dets, 1);
    assert Successes(bucket, keys[..2], dets[..2]) == [a];
    SuccessesStep(bucket, keys, dets, 2);
    assert keys[..3] == keys && dets[..3] == dets;
  }

  /** The rows of two records are those of the first followed by those of the second. */
  lemma TwoRecordRows(a: LabelResult, b: LabelResult)
    ensures CsvRows([a, b]) == LabelRows(a) + LabelRows(b)
  {
    CsvRowsSnoc([], a);
    CsvRowsSnoc([a], b);
    assert [] + [a] == [a] && [a] + [b] == [a, b];
  }

  /** A label with two parents gives a row whose parents field joins them with ";". */
  lemma TwoParentRow(bucket: string, key: string, name: string, confidence: real, p1: string, p2: string)
    ensures var resp := DetectResponse(Some([RawLabel(name, confidence, Some([RawParent(p1), RawParent(p2)]))]));
      LabelRows(Detect(bucket, key, resp)) ==
        [CsvRow("s3://" + bucket + "/" + key, name, confidence, p1 + ";" + p2)]
  {
    var parents := [p1, p2];
    assert parents[..1] == [p1];
    assert JoinWith(";", parents) == p1 + ";" + p2;
  }

  /** The key `images/a.jpg` with one label Cat (93.42) whose parent is Animal gives the row `s3://<bucket>/images/a.jpg,Cat,93.42,Animal`. */
  lemma CatRow(bucket: string)
    ensures var resp := DetectResponse(Some([RawLabel("Cat", 93.42, Some([RawParent("Animal")]))]));
      LabelRows(Detect(bucket, "images/a.jpg", resp)) ==
        [CsvRow("s3://" + bucket + "/images/a.jpg", "Cat", 93.42, "Animal")]
  {
    assert "s3://" + bucket + "/" + "images/a.jpg" == "s3://" + bucket + "/images/a.jpg";
  }
}
