# Rekognition image labeler — verified model

`app.py` is a command-line pipeline with these steps:

1. Make sure an S3 bucket exists.
2. Upload every `.jpg`, `.jpeg` and `.png` file of a local folder under a key prefix.
3. List the image keys stored under that prefix.
4. Ask Amazon Rekognition's DetectLabels for the labels of each image.
5. Save the results as JSON and CSV.
6. Render an HTML table from the JSON.

This project models in Dafny the logic of those steps that is not a remote call or I/O, and proves what the code promises about it.

The model has these modules:

- `Paths` (paths.dfy): the image-extension test.
  - `os.path.splitext` follows POSIX `posixpath` rules: the last dot of the base name, with leading dots skipped.
  - `.lower()` is ASCII lower case.
  - Also here: the membership test in `IMAGE_EXTS`, and the object key `os.path.join(prefix, relpath).replace("\\", "/")`.
- `Provisioning` (provisioning.dfy): `ensure_bucket`.
  - The CreateBucket request it sends.
  - Which rejection codes it tolerates.
  - S3 is a function from request to answer.
- `Uploader` (uploader.dfy): `upload_folder_to_s3`.
  - `os.walk` is the sequence of directories it visits, each with its file names.
  - Each `upload_file` call is an `Upload` record.
  - The nested loop and the `uploaded` counter are a method with loop invariants.
- `Sequences` (sequences.dfy): an order-preserving filter and the positions it keeps. The lister and the batch runner share it.
- `Lister` (lister.dfy): `list_s3_images`.
  - The paginator is the sequence of pages it yields.
  - A page without `Contents` counts as empty.
- `Labels` (labels.dfy): the record `detect_labels_for_s3_object` builds from one DetectLabels answer.
  - Missing `Labels` and `Parents` members are handled.
  - The `s3://bucket/key` address comes with its inverse.
  - `str.join` comes with a `split` that undoes it.
- `Batch` (batch.dfy): `bulk_detect_and_save`.
  - The answers of the detection service are a sequence aligned with the keys: each is `Detected(response)` or `ClientError(code)`.
  - The loop keeps the records of successful calls and writes one CSV row per label.
- `Report` (report.dfy): the row loop of `generate_html_report`. It is compared with the CSV rows.

The fatal exits (`sys.exit(1)`) are modelled as `Failure` values of `Wrappers.Fatal`.

## Model

| member | source | states |
|---|---|---|
| Paths.SplitExt | app.py:50 | `os.path.splitext` cuts the name in two: root followed by extension is the name again |
| Paths.ExtIndexSpec | app.py:50 | the cut point is the unique index where an extension starts (the last dot, after the last '/', with a non-dot before it in the base name); it is -1 exactly when no such index exists |
| Paths.SplitExtSpec | app.py:50 | `splitext(p)` is `(p[..i], p[i..])` for the extension start `i`, and `(p, "")` when there is none |
| Paths.ExtStartAtLastDot | app.py:50 | when the last dot lies after the last '/' with a non-dot before it in the base name, an extension starts there |
| Paths.ExtStartIsLastDot | app.py:50 | any extension start is the last dot, after the last '/', with a non-dot before it in the base name |
| Paths.Lower | app.py:50 | `.lower()` keeps the length and lowers each ASCII capital letter |
| Paths.IsImage | app.py:50-51 | the extension test `os.path.splitext(name)[1].lower() in IMAGE_EXTS`, shared by the uploader and the lister (app.py:70-71); what it accepts is stated by IsImageIff and ImageExtensionShape |
| Paths.ImageExtensionShape | app.py:8-51 | a kept name has an extension of four or five characters that starts with the dot |
| Paths.IsImageIff | app.py:8-52 | a name is kept exactly when it has an extension start `i` and the lower-case of `name[i..]` is `.jpg`, `.jpeg` or `.png` |
| Paths.LowerCaseExtension | app.py:50-51 | when the extension has no capital letter, the name is kept exactly when the extension itself is listed |
| Paths.PlainNameExtension | app.py:50 | `stem.suffix` with no other dot and no '/' has the extension `.suffix` |
| Paths.PlainNameKept | app.py:50-51 | such a name with a lower-case suffix is kept exactly when `.suffix` is listed |
| Paths.KeptUpperCase | app.py:50-51 | `A.JPG` is kept: the comparison ignores case |
| Paths.KeptDoubleExtension | app.py:50-51 | `x.tar.Png` is kept: only the last extension counts |
| Paths.KeptInDirectory | app.py:70-71 | the listed key `photos/cat.jpeg` is kept by the extension of its base name |
| Paths.DroppedOtherExtension | app.py:50-52 | `c.txt` is dropped |
| Paths.DroppedLeadingDots | app.py:50-52 | `.png` and `..png` have no extension and are dropped |
| Paths.HiddenNameDropped | app.py:70-71 | a base name with one leading dot and no other dot has an empty extension and is dropped, at the top or under any directory |
| Paths.DroppedHiddenExamples | app.py:70-71 | `images/.png` is dropped |
| Paths.DroppedDotInDirectory | app.py:70-71 | `album.png/readme` is dropped: a dot in a directory name is not an extension |
| Paths.SlashBackslashes | app.py:54 | `.replace("\\", "/")` keeps the length, turns each backslash into '/' and leaves every other character |
| Paths.SlashBackslashesAppend | app.py:54 | the rewrite distributes over concatenation |
| Paths.Join | app.py:53-54 | `os.path.join` of two parts: an absolute tail is the result; otherwise the result is the two parts with at most one character added |
| Paths.JoinParts | app.py:53-54 | joining a relative tail keeps the head as a prefix and the tail as a suffix, with a '/' between them exactly when the head is non-empty and does not end with '/' |
| Paths.RelPath | app.py:53-54 | `os.path.relpath(os.path.join(root, f), folder)`: the file name itself at the top of the folder, otherwise directory, '/' and name |
| Paths.RelPathParts | app.py:53-54 | a path under a subdirectory starts with that directory and a '/', and every path ends with the file name |
| Paths.ObjectKey | app.py:54 | the key a file is uploaded under holds no backslash |
| Paths.ObjectKeyShape | app.py:53-54 | a key has no backslash; it is the rewritten prefix, then '/' unless the prefix is empty or ends with '/', then the rewritten relative path |
| Provisioning.CreateRequest | app.py:24-30 | the request names the bucket; it has no location constraint exactly when the region is `us-east-1`, and otherwise the constraint is the region |
| Provisioning.ErrorCode | app.py:33 | the code is `Error.Code` of the response, or "" when `Error` or `Code` is missing |
| Provisioning.EnsureBucket | app.py:21-38 | creation goes on; a rejection goes on exactly when its code is `BucketAlreadyOwnedByYou` or `BucketAlreadyExists`, and is fatal with that code otherwise |
| Provisioning.OutcomeDependsOnlyOnCode | app.py:32-38 | two rejections with the same code lead to the same outcome, whatever the bucket and region |
| Provisioning.MissingCodeIsFatal | app.py:33-38 | a rejection without any code is fatal |
| Uploader.UploadDirectory | app.py:49-56 | the inner loop makes, in file order, one upload per image file of a directory |
| Uploader.UploadFolder | app.py:40-61 | not a directory: fatal `NotAFolder`; otherwise the uploads are those of every image file in walk order, `uploaded` is their number, and the run fails with `NoImagesToUpload` exactly when that number is 0 |
| Uploader.DirUploadCount | app.py:49-56 | a directory gives as many uploads as it has image files |
| Uploader.DirUploadsStep | app.py:49-56 | one more file of a directory adds its upload exactly when it is an image |
| Uploader.WalkUploadsStep | app.py:48-56 | one more directory of the walk adds exactly that directory's uploads |
| Uploader.UploadCount | app.py:47-58 | the walk gives as many uploads as it has image files |
| Uploader.DirUploadsExactly | app.py:49-55 | an upload is made for a directory exactly when it is the upload of one of its image files |
| Uploader.WalkUploadsExactly | app.py:48-55 | an upload is made exactly when it is the upload of an image file of some visited directory |
| Uploader.UploadKeysUnderPrefix | app.py:53-54 | every uploaded key has no backslash and is the prefix joined with the file's relative path |
| Uploader.TopLevelUpload | app.py:53-54 | a file at the top of the folder goes under `prefix + name` when the prefix ends with '/' |
| Uploader.ThreeFileDirectory | app.py:49-56 | a directory with two images and then a non-image gives exactly the two image uploads, and the count is 2 |
| Uploader.SingleDirectoryWalk | app.py:48-49 | a walk of one directory uploads that directory's images |
| Uploader.SampleFolderNames | app.py:50-52 | `a.jpg` and `b.png` are kept and `c.txt` is dropped |
| Uploader.SampleFolder | app.py:40-61 | a folder of `a.jpg`, `b.png` and `c.txt` gives the two uploads `prefix + a.jpg` and `prefix + b.png`, and a count of 2 |
| Lister.PageImages | app.py:68-72 | the inner loop keeps the image keys of one page, in order |
| Lister.PageKeys | app.py:68-69 | the keys of a page are exactly those of its `Contents`, and none when `Contents` is missing |
| Lister.ListImages | app.py:63-77 | the result is the image keys of all pages in listing order; it is `NoImagesInBucket` exactly when there is none |
| Lister.ListedInOrder | app.py:65-72 | the returned keys are an order-preserving subsequence of the listing: the k-th is the listing's key at the k-th kept position, the positions increase, and they are exactly those of image keys |
| Sequences.FilterAppend | app.py:67-72 | keeping the image keys of two listings one after the other is keeping those of their concatenation |
| Sequences.FilterIsSubsequence | app.py:69-72 | the kept elements are, in order, the elements at increasing kept positions, and those positions are exactly the ones that pass the test |
| Sequences.FilterMembership | app.py:69-72 | an element is kept exactly when it occurs and passes the test |
| Lister.ListedExactly | app.py:68-72 | a key is returned exactly when it is listed and has an image extension |
| Lister.PageKeysListed | app.py:67-68 | every key of every page is in the listing |
| Lister.ListingFromPages | app.py:67-68 | every key of the listing comes from some page |
| Lister.ReturnedUnderPrefix | app.py:66-72 | when the service lists only keys under the prefix, every returned key is under the prefix and is an image |
| Lister.EmptyPageIgnored | app.py:68 | a page without `Contents` adds no key |
| Labels.ImageUri | app.py:88 | the address is `s3://` + bucket + `/` + key, with the matching length |
| Labels.UriKey | app.py:88 | a key read back from an address rebuilds that address |
| Labels.UriKeyRoundTrip | app.py:88 | the key is read back from the address made for it |
| Labels.ImageUriInjective | app.py:88 | two keys of one bucket have the same address only when they are equal |
| Labels.ParentNames | app.py:93 | the parent names keep the answer's order and length; missing `Parents` gives none |
| Labels.Shape | app.py:90-94 | a recorded label keeps the answer's name and confidence, and the names of its parents in order, none when `Parents` is missing |
| Labels.Detect | app.py:79-97 | the record's image is the object's address; its labels have the answer's length and order, each with the answer's name, confidence and parent names |
| Labels.MissingLabelsGiveNone | app.py:95 | an answer without `Labels` gives no label |
| Labels.JoinWith | app.py:117 | joining no part gives "", and joining one part gives that part |
| Labels.SplitLastPiece | app.py:117 | splitting text whose last piece has no separator peels off that piece |
| Labels.SplitJoin | app.py:117 | splitting a join of one or more parts at the separator gives the parts back, when no part contains the separator |
| Batch.LabelRows | app.py:115-118 | a record gives one row per label, in order, each carrying the record's image |
| Batch.RowOf | app.py:116-118 | a row carries the record's image and the label's name and confidence, and its parents field splits at ';' back into the parent names when there is at least one and none holds ';' |
| Batch.WriteLabelRows | app.py:115-118 | the inner loop writes exactly those rows |
| Batch.BulkDetect | app.py:99-128 | every key is visited; `results` are the records of the successful calls in key order; the CSV is the header `image,label,confidence,parents` followed by the rows of those records |
| Batch.SuccessesStep | app.py:111-114 | visiting one more key adds its record exactly when its call succeeded |
| Batch.Successes | app.py:111-114 | the `results` accumulator holds at most one record per key, and none when every call raised ClientError; SuccessesLength, SuccessesAt and ResultsFollowKeys fix which records it holds |
| Batch.CsvRowsSnoc | app.py:114-118 | one more record adds exactly its rows |
| Batch.CsvRowsFollowEntries | app.py:115-118 | the i-th CSV row is the row of the i-th (record, label) pair |
| Batch.RowCount | app.py:115-118 | the number of data rows is the sum of the label counts of the records |
| Batch.SuccessesLength | app.py:111-122 | there is one record per successful call |
| Batch.SuccessesAt | app.py:111-122 | the k-th record is made from the key at the k-th successful position |
| Batch.ResultsFollowKeys | app.py:111-122 | the successful positions increase and are exactly those whose call succeeded, and the k-th record belongs to the k-th of them |
| Batch.SuccessImage | app.py:113-114 | every record carries the address of a key whose call succeeded |
| Batch.RowHasSource | app.py:115-118 | every row is the row of some label of some record |
| Batch.RowWritten | app.py:115-118 | every label of every record has its row |
| Batch.RowsExactly | app.py:115-118 | a row is written exactly for each label of each record |
| Batch.FailedKeyAbsent | app.py:112-122 | a key whose call raised ClientError, and that no successful call shares, has no record and no row |
| Batch.SecondOfThreeFails | app.py:111-122 | with three keys whose second call fails, the records are those of keys 1 and 3, in that order |
| Batch.TwoRecordRows | app.py:114-118 | the rows of two records are the rows of the first and then those of the second |
| Batch.TwoParentRow | app.py:115-118 | a label with two parents gives one row whose parents field is `p1;p2` |
| Batch.CatRow | app.py:88-118 | key `images/a.jpg` with the label Cat (93.42, parent Animal) gives the row `s3://<bucket>/images/a.jpg`, `Cat`, 93.42, `Animal` |
| Report.BuildReportRows | app.py:134-140 | the nested loop builds one table row per label of each record, in order |
| Report.HtmlRowOf | app.py:139 | a table row shows the same image, label name and confidence as the CSV row of that label, with the parent names joined by ", " |
| Report.ReportRowsFollowEntries | app.py:135-140 | the i-th table row is the row of the i-th (record, label) pair |
| Report.ReportMatchesCsv | app.py:135-140 | the report has as many rows as the CSV and, row by row, the same image, label and confidence; the parents are the same names, joined with ", " in the report and with ";" in the CSV |
| Report.CsvParentsRecoverable | app.py:117 | when no parent name contains ';', the parent names can be read back from the CSV row |

## Left out

- The boto3 session and clients, credential errors and `make_session` (app.py:13-19): remote services. CreateBucket, the listing pages, the folder walk and the DetectLabels answers are inputs of the model instead.
- `print` and `sys.exit`: log lines are dropped. Fatal exits are `Failure` results.
- `os.path.abspath` and `os.path.isdir` (app.py:42-43): `isdir` is the boolean `isDir`.
- The order of `os.walk`: the walk is any given sequence of directories. Directory names are relative and file names contain no '/', as `os.walk` guarantees; the lemmas that need this say so.
- `upload_file` (app.py:55): each call is recorded as an `Upload(relPath, key)`. Re-uploading and overwriting are not modelled.
- Windows paths: `os.path.join` and `splitext` follow the POSIX rules (separator '/').
- Paths.Lower: lowers ASCII letters only. A non-ASCII character never lowers to a character of `.jpg`, `.jpeg` or `.png` (U+212A lowers to `k`, U+0130 to `i` plus a combining dot). So the image test is exact.
- `round(float(...), 2)` on the confidence (app.py:92): the confidence is a `real` passed through unchanged.
- The `MaxLabels` and `MinConfidence` arguments (app.py:82-86): they only limit what the service returns, which is an input here.
- Exceptions that abort the run are not modelled: an exception from `create_bucket` other than `ClientError` (app.py:32), an exception from `upload_file` part-way through the walk (app.py:55), a `ClientError` from the paginator, for example for a missing bucket (app.py:66-67), a `KeyError` on a missing `Name`, `Key` or `Confidence`, and every exception other than `ClientError` in the batch loop. The model's inputs assume these calls succeed: `CreateOutcome` is only `Created` or `Rejected`, every upload is made, and the listing is a complete sequence of pages. `Name`, `Key` and `Confidence` are required fields of the model's datatypes.
- `time.sleep(0.1)` (app.py:120): timing only. It sits inside the `try` after a successful call, so it runs only after successes.
- File writing, CSV quoting, the text form of the confidence, `json.dump`/`json.load` and the HTML/CSS template (app.py:103-105, 124-127, 141-161): the outputs are in-memory values. CSV rows are `CsvRow` values, table rows are `HtmlRow` values, and the JSON document read back by the report is assumed to be the `results` written.
- The crash behaviour in which CSV rows are flushed while the JSON is written only at the end: the model has no partial runs.
- `main` and argparse (app.py:164-190): command-line plumbing.
