/**
 * `detect_labels_for_s3_object`: the record made from one DetectLabels
 * answer, and the text helpers the outputs share (the `s3://` address of
 * an object, and `str.join`).
 */
module Labels {
  import opened Wrappers
  import Paths

  /** A parent of a label in the service's answer. */
  datatype RawParent = RawParent(name: string)

  /** A label in the service's answer; `Parents` may be missing. */
  datatype RawLabel = RawLabel(name: string, confidence: real, parents: Option<seq<RawParent>>)

  /** The service's answer; `Labels` may be missing. */
  datatype DetectResponse = DetectResponse(labels: Option<seq<RawLabel>>)

  /** A label as the pipeline records it. */
  datatype Label = Label(name: string, confidence: real, parents: seq<string>)

  /** The record for one image: its address and its labels. */
  datatype LabelResult = LabelResult(image: string, labels: seq<Label>)

  const Scheme: string := "s3://"

  /** `f"s3://{bucket}/{key}"`. */
  function ImageUri(bucket: string, key: string): (uri: string)
    ensures |uri| == |Scheme| + |bucket| + 1 + |key|
  {
    Scheme + bucket + "/" + key
  }

  /** The key part of an address made by ImageUri for `bucket`. */
  function UriKey(bucket: string, uri: string): (key: Option<string>)
    ensures key.Some? ==> ImageUri(bucket, key.value) == uri
  {
    var head := Scheme + bucket + "/";
    if |head| <= |uri| && uri[..|head|] == head then
      assert uri == head + uri[|head|..];
      Some(uri[|head|..])
    else None
  }

  /** The key can be read back from the address: ImageUri is one-to-one in the key. */
  lemma UriKeyRoundTrip(bucket: string, key: string)
    ensures UriKey(bucket, ImageUri(bucket, key)) == Some(key)
  {
    var head := Scheme + bucket + "/";
    var uri := ImageUri(bucket, key);
    assert uri == head + key;
    assert uri[..|head|] == head;
    assert uri[|head|..] == key;
  }

  /** Two keys of the same bucket give the same address only when they are equal. */
  lemma ImageUriInjective(bucket: string, k1: string, k2: string)
    requires ImageUri(bucket, k1) == ImageUri(bucket, k2)
    ensures k1 == k2
  {
    UriKeyRoundTrip(bucket, k1);
    UriKeyRoundTrip(bucket, k2);
  }

  /** `resp.get("Labels", [])`. */
  function RawLabels(resp: DetectResponse): seq<RawLabel> {
    match resp.labels
    case None => []
    case Some(labels) => labels
  }

  /** `[p["Name"] for p in lab.get("Parents", [])]`. */
  function ParentNames(parents: Option<seq<RawParent>>): (names: seq<string>)
    ensures parents.None? ==> names == []
    ensures parents.Some? ==> |names| == |parents.value|
    ensures parents.Some? ==> forall i :: 0 <= i < |names| ==> names[i] == parents.value[i].name
  {
    match parents
    case None => []
    case Some(ps) => seq(|ps|, i requires 0 <= i < |ps| => ps[i].name)
  }

  /**
   * One label of the answer as it is recorded: its name and confidence
   * passed through, and the names of its parents in order (none when
   * `Parents` is missing).
   */
  function Shape(raw: RawLabel): (r: Label)
    ensures r.name == raw.name && r.confidence == raw.confidence
    ensures raw.parents.None? ==> r.parents == []
    ensures raw.parents.Some? ==> |r.parents| == |raw.parents.value|
    ensures raw.parents.Some? ==>
      forall i :: 0 <= i < |r.parents| ==> r.parents[i] == raw.parents.value[i].name
  {
    Label(raw.name, raw.confidence, ParentNames(raw.parents))
  }

  /**
   * The record `detect_labels_for_s3_object` returns: the object's address,
   * and one label per label of the answer, in the answer's order, each with
   * its name, its confidence and the names of its parents in order.
   */
  function Detect(bucket: string, key: string, resp: DetectResponse): (r: LabelResult)
    ensures r.image == ImageUri(bucket, key)
    ensures |r.labels| == |RawLabels(resp)|
    ensures forall i :: 0 <= i < |r.labels| ==>
      r.labels[i].name == RawLabels(resp)[i].name &&
      r.labels[i].confidence == RawLabels(resp)[i].confidence &&
      r.labels[i].parents == ParentNames(RawLabels(resp)[i].parents)
  {
    var raw := RawLabels(resp);
    LabelResult(ImageUri(bucket, key), seq(|raw|, i requires 0 <= i < |raw| => Shape(raw[i])))
  }

  /** An answer without `Labels` gives a record with no label. */
  lemma MissingLabelsGiveNone(bucket: string, key: string)
    ensures Detect(bucket, key, DetectResponse(None)).labels == []
  {
  }

  /** `sep.join(parts)`. */
  function JoinWith(sep: string, parts: seq<string>): (s: string)
    ensures parts == [] ==> s == []
    ensures |parts| == 1 ==> s == parts[0]
  {
    if parts == [] then []
    else if |parts| == 1 then parts[0]
    else JoinWith(sep, parts[..|parts| - 1]) + sep + parts[|parts| - 1]
  }

  /** `s.split(c)` for a one-character separator: the pieces between the separators. */
  function Split(s: string, c: char): (parts: seq<string>)
    ensures |parts| >= 1
    decreases |s|
  {
    var i := Paths.RFind(s, c);
    if i < 0 then [s]
    else Split(s[..i], c) + [s[i + 1..]]
  }

  /** Splitting text whose last piece holds no separator peels that piece off. */
  lemma SplitLastPiece(head: string, last: string, c: char)
    requires c !in last
    ensures Split(head + [c] + last, c) == Split(head, c) + [last]
  {
    var s := head + [c] + last;
    assert s[|head|] == c;
    forall k | |head| < k < |s|
      ensures s[k] != c
    {
      assert s[k] == last[k - |head| - 1];
    }
    Paths.RFindAt(s, c, |head|);
    assert s[..|head|] == head;
    assert s[|head| + 1..] == last;
  }

  /**
   * Joining a non-empty list of parts, none of which contains the
   * separator character, can be undone by splitting at that character.
   */
  lemma {:induction false} SplitJoin(parts: seq<string>, c: char)
    requires |parts| >= 1
    requires forall i :: 0 <= i < |parts| ==> c !in parts[i]
    ensures Split(JoinWith([c], parts), c) == parts
    decreases |parts|
  {
    if |parts| == 1 {
      Paths.RFindAbsent(parts[0], c);
    } else {
      var init := parts[..|parts| - 1];
      assert forall i :: 0 <= i < |init| ==> init[i] == parts[i];
      SplitJoin(init, c);
      SplitLastPiece(JoinWith([c], init), parts[|parts| - 1], c);
      assert init + [parts[|parts| - 1]] == parts;
    }
  }
}
