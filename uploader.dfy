/**
 * `upload_folder_to_s3`: walk the local folder, upload every file with an
 * image extension under `prefix`, count the uploads, and stop when the
 * folder is not a directory or holds no image.
 *
 * The traversal of `os.walk` is given as its sequence of visited
 * directories, each with the names of its files; `upload_file` is recorded
 * as an Upload value in the order the calls are made.
 */
module Uploader {
  import opened Wrappers
  import opened Paths

  /** One directory produced by `os.walk`: its path relative to the folder ("" for the folder) and its file names. */
  datatype WalkEntry = WalkEntry(relDir: string, files: seq<string>)

  /** One `upload_file` call: the file, relative to the folder, and the key it is stored under. */
  datatype Upload = Upload(relPath: string, key: string)

  /** The uploads made and the value of the `uploaded` counter at the end. */
  datatype UploadReport = UploadReport(uploads: seq<Upload>, uploaded: nat)

  /** What `os.walk` guarantees: file names hold no '/', directories are relative. */
  ghost predicate WellFormedWalk(walk: seq<WalkEntry>) {
    forall i, j :: 0 <= i < |walk| && 0 <= j < |walk[i].files| ==>
      '/' !in walk[i].files[j] && (walk[i].relDir == [] || walk[i].relDir[0] != '/')
  }

  function UploadOf(prefix: string, relDir: string, name: string): Upload {
    Upload(RelPath(relDir, name), ObjectKey(prefix, relDir, name))
  }

  /** The uploads for the files of one directory, in the order the files are listed. */
  function DirUploads(prefix: string, relDir: string, files: seq<string>): seq<Upload> {
    if files == [] then []
    else (if IsImage(files[0]) then [UploadOf(prefix, relDir, files[0])] else [])
         + DirUploads(prefix, relDir, files[1..])
  }

  /** The uploads for a whole walk, directory after directory. */
  function WalkUploads(prefix: string, walk: seq<WalkEntry>): seq<Upload> {
    if walk == [] then []
    else DirUploads(prefix, walk[0].relDir, walk[0].files) + WalkUploads(prefix, walk[1..])
  }

  /** The number of image files among `files`. */
  function CountImages(files: seq<string>): nat {
    if files == [] then 0 else (if IsImage(files[0]) then 1 else 0) + CountImages(files[1..])
  }

  /** The number of image files in the whole walk. */
  function ImageCount(walk: seq<WalkEntry>): nat {
    if walk == [] then 0 else CountImages(walk[0].files) + ImageCount(walk[1..])
  }

  /** The inner loop of `upload_folder_to_s3`: one upload per image file of one directory, in listing order. */
  method UploadDirectory(prefix: string, relDir: string, files: seq<string>) returns (uploads: seq<Upload>)
    ensures uploads == DirUploads(prefix, relDir, files)
  {
    uploads := [];
    var j := 0;
    while j < |files|
      invariant 0 <= j <= |files|
      invariant DirUploads(prefix, relDir, files) == uploads + DirUploads(prefix, relDir, files[j..])
    {
      DirUploadsStep(prefix, relDir, files, j);
      if IsImage(files[j]) {
        uploads := uploads + [UploadOf(prefix, relDir, files[j])];
      }
      j := j + 1;
    }
    assert files[j..] == [];
  }

  /**
   * The folder is refused when it is not a directory; otherwise one upload
   * is made per image file, in walk order, and the run stops when that
   * number is zero.
   */
  method UploadFolder(isDir: bool, walk: seq<WalkEntry>, prefix: string) returns (r: Result<UploadReport, Fatal>)
    ensures !isDir ==> r == Failure(NotAFolder)
    ensures isDir ==> (r.Success? <==> ImageCount(walk) > 0)
    ensures isDir && r.Failure? ==> r.error == NoImagesToUpload
    ensures r.Success? ==> r.value.uploads == WalkUploads(prefix, walk)
    ensures r.Success? ==> r.value.uploaded == |r.value.uploads| == ImageCount(walk)
  {
    if !isDir {
      return Failure(NotAFolder);
    }
    var uploads: seq<Upload> := [];
    var uploaded := 0;
    var i := 0;
    while i < |walk|
      invariant 0 <= i <= |walk|
      invariant WalkUploads(prefix, walk) == uploads + WalkUploads(prefix, walk[i..])
      invariant uploaded == |uploads|
    {
      WalkUploadsStep(prefix, walk, i);
      var made := UploadDirectory(prefix, walk[i].relDir, walk[i].files);
      assert uploads + (made + WalkUploads(prefix, walk[i + 1..])) ==
        (uploads + made) + WalkUploads(prefix, walk[i + 1..]);
      uploads := uploads + made;
      uploaded := uploaded + |made|;
      i := i + 1;
    }
    assert walk[i..] == [];
    UploadCount(prefix, walk);
    if uploaded == 0 {
      return Failure(NoImagesToUpload);
    }
    return Success(UploadReport(uploads, uploaded));
  }

  lemma {:induction false} DirUploadCount(prefix: string, relDir: string, files: seq<string>)
    ensures |DirUploads(prefix, relDir, files)| == CountImages(files)
    decreases |files|
  {
    if files != [] {
      DirUploadCount(prefix, relDir, files[1..]);
    }
  }

  lemma DirUploadsStep(prefix: string, relDir: string, files: seq<string>, j: nat)
    requires j < |files|
    ensures DirUploads(prefix, relDir, files[j..]) ==
      (if IsImage(files[j]) then [UploadOf(prefix, relDir, files[j])] else [])
      + DirUploads(prefix, relDir, files[j + 1..])
  {
    assert files[j..][1..] == files[j + 1..];
  }

  lemma WalkUploadsStep(prefix: string, walk: seq<WalkEntry>, i: nat)
    requires i < |walk|
    ensures WalkUploads(prefix, walk[i..]) ==
      DirUploads(prefix, walk[i].relDir, walk[i].files) + WalkUploads(prefix, walk[i + 1..])
  {
    assert walk[i..][1..] == walk[i + 1..];
  }

  /** Exactly one upload per image file: the final count is the number of image files. */
  lemma {:induction false} UploadCount(prefix: string, walk: seq<WalkEntry>)
    ensures |WalkUploads(prefix, walk)| == ImageCount(walk)
    decreases |walk|
  {
    if walk != [] {
      DirUploadCount(prefix, walk[0].relDir, walk[0].files);
      UploadCount(prefix, walk[1..]);
    }
  }

  /** An upload is made for a file of a directory exactly when the file is an image. */
  lemma {:induction false} DirUploadsExactly(prefix: string, relDir: string, files: seq<string>, u: Upload)
    ensures u in DirUploads(prefix, relDir, files) <==>
      exists j :: 0 <= j < |files| && IsImage(files[j]) && u == UploadOf(prefix, relDir, files[j])
    decreases |files|
  {
    if files != [] {
      DirUploadsExactly(prefix, relDir, files[1..], u);
      if u in DirUploads(prefix, relDir, files[1..]) {
        var j :| 0 <= j < |files[1..]| && IsImage(files[1..][j]) && u == UploadOf(prefix, relDir, files[1..][j]);
        assert files[j + 1] == files[1..][j];
      }
      forall j | 0 < j < |files| && IsImage(files[j]) && u == UploadOf(prefix, relDir, files[j])
        ensures u in DirUploads(prefix, relDir, files[1..])
      {
        assert files[1..][j - 1] == files[j];
      }
    }
  }

  /**
   * The uploads of a walk are exactly the uploads of its image files, each
   * stored under `prefix` joined with the file's relative path.
   */
  lemma {:induction false} WalkUploadsExactly(prefix: string, walk: seq<WalkEntry>, u: Upload)
    ensures u in WalkUploads(prefix, walk) <==>
      exists i, j :: 0 <= i < |walk| && 0 <= j < |walk[i].files| && IsImage(walk[i].files[j]) &&
        u == UploadOf(prefix, walk[i].relDir, walk[i].files[j])
    decreases |walk|
  {
    if walk != [] {
      DirUploadsExactly(prefix, walk[0].relDir, walk[0].files, u);
      WalkUploadsExactly(prefix, walk[1..], u);
      if u in WalkUploads(prefix, walk[1..]) {
        var i, j :| 0 <= i < |walk[1..]| && 0 <= j < |walk[1..][i].files| && IsImage(walk[1..][i].files[j]) &&
          u == UploadOf(prefix, walk[1..][i].relDir, walk[1..][i].files[j]);
        assert walk[i + 1] == walk[1..][i];
      }
      forall i, j | 0 < i < |walk| && 0 <= j < |walk[i].files| && IsImage(walk[i].files[j]) &&
          u == UploadOf(prefix, walk[i].relDir, walk[i].files[j])
        ensures u in WalkUploads(prefix, walk[1..])
      {
        assert walk[1..][i - 1] == walk[i];
      }
    }
  }

  /**
   * Every key the uploader produces contains no backslash and is the prefix
   * followed by the file's relative path, with a '/' between them unless
   * the prefix is empty or ends with one (backslashes rewritten in both).
   */
  lemma UploadKeysUnderPrefix(prefix: string, walk: seq<WalkEntry>, u: Upload)
    requires WellFormedWalk(walk)
    requires u in WalkUploads(prefix, walk)
    ensures '\\' !in u.key
    ensures prefix == [] || prefix[|prefix| - 1] == '/' ==>
      u.key == SlashBackslashes(prefix) + SlashBackslashes(u.relPath)
    ensures prefix != [] && prefix[|prefix| - 1] != '/' ==>
      u.key == SlashBackslashes(prefix) + "/" + SlashBackslashes(u.relPath)
  {
    WalkUploadsExactly(prefix, walk, u);
    var i, j :| 0 <= i < |walk| && 0 <= j < |walk[i].files| && IsImage(walk[i].files[j]) &&
      u == UploadOf(prefix, walk[i].relDir, walk[i].files[j]);
    ObjectKeyShape(prefix, walk[i].relDir, walk[i].files[j]);
  }

  /** A top-level file is stored under the prefix followed by its name. */
  lemma TopLevelUpload(prefix: string, name: string)
    requires prefix == [] || prefix[|prefix| - 1] == '/'
    requires '\\' !in prefix && '\\' !in name && (name == [] || name[0] != '/')
    ensures UploadOf(prefix, "", name) == Upload(name, prefix + name)
  {
    var s := prefix + name;
    assert SlashBackslashes(s) == s;
  }

  /** A directory of three files, the last of which is not an image, gives the uploads of the first two. */
  lemma ThreeFileDirectory(prefix: string, relDir: string, x: string, y: string, z: string)
    requires IsImage(x) && IsImage(y) && !IsImage(z)
    ensures DirUploads(prefix, relDir, [x, y, z]) == [UploadOf(prefix, relDir, x), UploadOf(prefix, relDir, y)]
    ensures CountImages([x, y, z]) == 2
  {
    var files := [x, y, z];
    assert files[1..] == [y, z] && [y, z][1..] == [z] && [z][1..] == [];
    assert DirUploads(prefix, relDir, [z]) == [] && CountImages([z]) == 0;
    assert DirUploads(prefix, relDir, [y, z]) == [UploadOf(prefix, relDir, y)] && CountImages([y, z]) == 1;
  }

  /** A walk that visits a single directory uploads that directory's images. */
  lemma SingleDirectoryWalk(prefix: string, entry: WalkEntry)
    ensures WalkUploads(prefix, [entry]) == DirUploads(prefix, entry.relDir, entry.files)
    ensures ImageCount([entry]) == CountImages(entry.files)
  {
    assert [entry][1..] == [];
    assert WalkUploads(prefix, [entry]) == DirUploads(prefix, entry.relDir, entry.files) + [];
  }

  /** The names of a folder holding `a.jpg`, `b.png` and `c.txt`: the text file is the one dropped. */
  lemma SampleFolderNames()
    ensures IsImage("a.jpg") && IsImage("b.png") && !IsImage("c.txt")
  {
    var a, b, c := "a.jpg", "b.png", "c.txt";
    RFindAbsent(a, '/');
    RFindAt(a, '.', 1);
    assert a[0] != '.';
    assert Lower(Extension(a)) == ".jpg";
    RFindAbsent(b, '/');
    RFindAt(b, '.', 1);
    assert b[0] != '.';
    assert Lower(Extension(b)) == ".png";
    RFindAbsent(c, '/');
    RFindAt(c, '.', 1);
    assert c[0] != '.';
    assert Lower(Extension(c)) == ".txt";
  }

  /**
   * A folder holding `a.jpg`, `b.png` and `c.txt` gives two uploads under
   * the prefix, and `c.txt` is skipped.
   */
  lemma SampleFolder(prefix: string)
    requires prefix == [] || prefix[|prefix| - 1] == '/'
    requires '\\' !in prefix
    ensures
      var walk := [WalkEntry("", ["a.jpg", "b.png", "c.txt"])];
      WalkUploads(prefix, walk) == [Upload("a.jpg", prefix + "a.jpg"), Upload("b.png", prefix + "b.png")] &&
      ImageCount(walk) == 2
  {
    SampleFolderNames();
    ThreeFileDirectory(prefix, "", "a.jpg", "b.png", "c.txt");
    TopLevelUpload(prefix, "a.jpg");
    TopLevelUpload(prefix, "b.png");
    SingleDirectoryWalk(prefix, WalkEntry("", ["a.jpg", "b.png", "c.txt"]));
  }
}
