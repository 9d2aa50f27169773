/**
 * The string and path operations the uploader and the lister rely on:
 * Python's `str.rfind`, `os.path.splitext` (POSIX flavour), `str.lower`,
 * the image-extension test, `os.path.join` and the backslash rewrite that
 * turns a local relative path into an object key.
 */
module Paths {

  /** The extensions the program processes (`IMAGE_EXTS`). */
  const ImageExtensions: set<string> := {".jpg", ".jpeg", ".png"}

  /** Index of the last occurrence of `c` among the first `n` characters of `s`, or -1. */
  function RFindBefore(s: string, c: char, n: nat): (r: int)
    requires n <= |s|
    ensures -1 <= r < n
  {
    if n == 0 then -1
    else if s[n - 1] == c then n - 1
    else RFindBefore(s, c, n - 1)
  }

  /** `str.rfind`: index of the last occurrence of `c` in `s`, or -1 when there is none. */
  function RFind(s: string, c: char): (r: int)
    ensures -1 <= r < |s|
  {
    RFindBefore(s, c, |s|)
  }

  lemma {:induction false} RFindBeforeSpec(s: string, c: char, n: nat)
    requires n <= |s|
    ensures RFindBefore(s, c, n) >= 0 ==> s[RFindBefore(s, c, n)] == c
    ensures forall k :: RFindBefore(s, c, n) < k < n ==> s[k] != c
  {
    if n > 0 && s[n - 1] != c {
      RFindBeforeSpec(s, c, n - 1);
    }
  }

  /** RFind finds an occurrence of `c`, and no occurrence of `c` follows it. */
  lemma RFindSpec(s: string, c: char)
    ensures RFind(s, c) >= 0 ==> s[RFind(s, c)] == c
    ensures forall k :: RFind(s, c) < k < |s| ==> s[k] != c
  {
    RFindBeforeSpec(s, c, |s|);
  }

  /** RFind returns an occurrence of `c` that no later occurrence follows. */
  lemma RFindAt(s: string, c: char, i: int)
    requires 0 <= i < |s| && s[i] == c
    requires forall k :: i < k < |s| ==> s[k] != c
    ensures RFind(s, c) == i
  {
    RFindSpec(s, c);
  }

  /** RFind returns -1 when `c` does not occur. */
  lemma RFindAbsent(s: string, c: char)
    requires forall k :: 0 <= k < |s| ==> s[k] != c
    ensures RFind(s, c) == -1
  {
    RFindSpec(s, c);
  }

  /** Every character of `p` from `lo` up to (not including) `hi` is a dot. */
  predicate OnlyDots(p: string, lo: int, hi: int)
    requires 0 <= lo && hi <= |p|
  {
    forall k :: lo <= k < hi ==> p[k] == '.'
  }

  /** No dot and no slash follows index `i` of `p`. */
  ghost predicate LastDotOfName(p: string, i: int)
    requires 0 <= i < |p|
  {
    p[i] == '.' && forall k :: i < k < |p| ==> p[k] != '.' && p[k] != '/'
  }

  /** Index `k` lies in the same path component as `i` and holds neither a dot nor a slash. */
  ghost predicate StemChar(p: string, k: int, i: int)
    requires 0 <= k < i <= |p|
  {
    p[k] != '.' && forall m :: k <= m < i ==> p[m] != '/'
  }

  /**
   * `i` is where the extension of path `p` starts: `p[i]` is the last dot,
   * no slash follows it, and the base name holds a character other than a
   * dot before it (so `.png` and `..png` have no extension).
   */
  ghost predicate ExtStart(p: string, i: int) {
    && 0 <= i < |p|
    && LastDotOfName(p, i)
    && exists k :: 0 <= k < i && StemChar(p, k, i)
  }

  /**
   * Where `os.path.splitext` cuts `p`: the index of the dot that starts the
   * extension, or -1 when `p` has no extension.
   */
  function ExtIndex(p: string): (e: int)
    ensures -1 <= e < |p|
  {
    var sep := RFind(p, '/');
    var dot := RFind(p, '.');
    if dot > sep && !OnlyDots(p, sep + 1, dot) then dot else -1
  }

  /**
   * `os.path.splitext`: the pair (root, ext) with root + ext == p, where ext
   * is empty or starts with the dot at ExtIndex(p).
   */
  function SplitExt(p: string): (r: (string, string))
    ensures r.0 + r.1 == p
  {
    var e := ExtIndex(p);
    if e < 0 then (p, []) else (p[..e], p[e..])
  }

  /**
   * ExtIndex finds the one index where an extension starts, if there is
   * one, and reports -1 exactly when there is none.
   */
  lemma ExtIndexSpec(p: string)
    ensures ExtIndex(p) >= 0 <==> exists i :: ExtStart(p, i)
    ensures ExtIndex(p) >= 0 ==> ExtStart(p, ExtIndex(p))
    ensures forall i :: ExtStart(p, i) ==> ExtIndex(p) == i
  {
    ExtStartIsLastDot(p);
    var sep, dot := RFind(p, '/'), RFind(p, '.');
    if dot > sep && !OnlyDots(p, sep + 1, dot) {
      ExtStartAtLastDot(p);
    }
  }

  /**
   * The extension `os.path.splitext` splits off is empty exactly when the
   * path has no extension, and otherwise starts at the unique ExtStart index.
   */
  lemma SplitExtSpec(p: string)
    ensures (forall i :: !ExtStart(p, i)) ==> SplitExt(p) == (p, [])
    ensures forall i :: ExtStart(p, i) ==> SplitExt(p) == (p[..i], p[i..])
  {
    ExtIndexSpec(p);
  }

  /** When the base name has a non-dot before its last dot, that dot starts the extension. */
  lemma ExtStartAtLastDot(p: string)
    requires RFind(p, '.') > RFind(p, '/')
    requires !OnlyDots(p, RFind(p, '/') + 1, RFind(p, '.'))
    ensures ExtStart(p, RFind(p, '.'))
  {
    RFindSpec(p, '/');
    RFindSpec(p, '.');
    var sep, dot := RFind(p, '/'), RFind(p, '.');
    var k :| sep + 1 <= k < dot && p[k] != '.';
    assert StemChar(p, k, dot);
    assert LastDotOfName(p, dot);
  }

  /** An extension starts at the last dot, after the last slash, with a non-dot between them. */
  lemma ExtStartIsLastDot(p: string)
    ensures forall i | ExtStart(p, i) ::
      i == RFind(p, '.') && RFind(p, '/') < i && !OnlyDots(p, RFind(p, '/') + 1, i)
  {
    var sep, dot := RFind(p, '/'), RFind(p, '.');
    RFindSpec(p, '/');
    RFindSpec(p, '.');
    forall i | ExtStart(p, i)
      ensures i == dot && sep < i && !OnlyDots(p, sep + 1, i)
    {
      var k :| 0 <= k < i && StemChar(p, k, i);
      assert LastDotOfName(p, i);
      assert dot == i;
      assert p[k] != '/';
      assert sep < k;
    }
  }

  /** The extension part of `os.path.splitext`. */
  function Extension(p: string): string {
    SplitExt(p).1
  }

  /** `str.lower` on the ASCII letters; every other character is kept. */
  function LowerChar(c: char): char {
    if 'A' <= c <= 'Z' then (c as int - 'A' as int + 'a' as int) as char else c
  }

  function Lower(s: string): (r: string)
    ensures |r| == |s|
    ensures forall k :: 0 <= k < |s| ==> r[k] == LowerChar(s[k])
  {
    seq(|s|, k requires 0 <= k < |s| => LowerChar(s[k]))
  }

  /** The test `os.path.splitext(name)[1].lower() in IMAGE_EXTS`. */
  predicate IsImage(name: string) {
    Lower(Extension(name)) in ImageExtensions
  }

  /** A kept name has an extension of four or five characters that starts with the dot. */
  lemma ImageExtensionShape(name: string)
    requires IsImage(name)
    ensures 4 <= |Extension(name)| <= 5 && Extension(name)[0] == '.'
  {
    var e := Extension(name);
    assert Lower(e)[0] == LowerChar(e[0]);
  }

  /**
   * A name is kept exactly when it has an extension (in the sense of
   * ExtStart) whose lower-case form is one of the image extensions.
   */
  lemma IsImageIff(name: string)
    ensures IsImage(name) <==>
      exists i :: ExtStart(name, i) && Lower(name[i..]) in ImageExtensions
  {
    SplitExtSpec(name);
    if forall i :: !ExtStart(name, i) {
      assert Lower(Extension(name)) == [];
    }
  }

  /** A name whose extension is already written in lower case is kept exactly when that extension is listed. */
  lemma LowerCaseExtension(name: string)
    requires forall k :: 0 <= k < |Extension(name)| ==> !('A' <= Extension(name)[k] <= 'Z')
    ensures IsImage(name) <==> Extension(name) in ImageExtensions
  {
    assert Lower(Extension(name)) == Extension(name);
  }

  /**
   * A name made of a stem without dots or slashes, one dot and a suffix
   * without dots or slashes has that dot and suffix as its extension.
   */
  lemma PlainNameExtension(stem: string, suffix: string)
    requires stem != [] && '.' !in stem && '/' !in stem
    requires '.' !in suffix && '/' !in suffix
    ensures Extension(stem + "." + suffix) == "." + suffix
  {
    var p := stem + "." + suffix;
    forall k | 0 <= k < |p| ensures p[k] != '/' {
      if k < |stem| {
        assert p[k] == stem[k];
      } else if k > |stem| {
        assert p[k] == suffix[k - |stem| - 1];
      }
    }
    forall k | |stem| < k < |p| ensures p[k] != '.' {
      assert p[k] == suffix[k - |stem| - 1];
    }
    RFindAbsent(p, '/');
    RFindAt(p, '.', |stem|);
    assert p[0] == stem[0] != '.';
    assert !OnlyDots(p, 0, |stem|);
    assert p[|stem|..] == "." + suffix;
  }

  /**
   * A plain name (a stem, one dot, a lower-case suffix, no slash) is kept
   * exactly when its dot and suffix form a listed extension.
   */
  lemma PlainNameKept(stem: string, suffix: string)
    requires stem != [] && '.' !in stem && '/' !in stem
    requires '.' !in suffix && '/' !in suffix
    requires forall k :: 0 <= k < |suffix| ==> !('A' <= suffix[k] <= 'Z')
    ensures IsImage(stem + "." + suffix) <==> "." + suffix in ImageExtensions
  {
    PlainNameExtension(stem, suffix);
    LowerCaseExtension(stem + "." + suffix);
  }

  /** The extension is matched without regard to case. */
  lemma KeptUpperCase()
    ensures IsImage("A.JPG")
  {
    var a := "A.JPG";
    RFindAbsent(a, '/');
    RFindAt(a, '.', 1);
    assert a[0] != '.';
    assert Lower(Extension(a)) == ".jpg";
  }

  /** Only the last extension counts: a name with several dots is kept by its final one. */
  lemma KeptDoubleExtension()
    ensures IsImage("x.tar.Png")
  {
    var x := "x.tar.Png";
    RFindAbsent(x, '/');
    RFindAt(x, '.', 5);
    assert x[0] != '.';
    assert Lower(Extension(x)) == ".png";
  }

  /** A key with a directory part is kept by the extension of its base name. */
  lemma KeptInDirectory()
    ensures IsImage("photos/cat.jpeg")
  {
    var c := "photos/cat.jpeg";
    RFindAt(c, '/', 6);
    RFindAt(c, '.', 10);
    assert c[7] != '.';
    assert Lower(Extension(c)) == ".jpeg";
  }

  /** A name with another extension is dropped. */
  lemma DroppedOtherExtension()
    ensures !IsImage("c.txt")
  {
    var t := "c.txt";
    RFindAbsent(t, '/');
    RFindAt(t, '.', 1);
    assert t[0] != '.';
    assert Lower(Extension(t)) == ".txt";
  }

  /** A base name whose only dots lead it has no extension, so it is dropped. */
  lemma DroppedLeadingDots()
    ensures !IsImage(".png")
    ensures !IsImage("..png")
  {
    var one, two := ".png", "..png";
    RFindAbsent(one, '/');
    RFindAt(one, '.', 0);
    assert Extension(one) == [];
    RFindAbsent(two, '/');
    RFindAt(two, '.', 1);
    assert OnlyDots(two, 0, 1);
    assert Extension(two) == [];
  }

  /**
   * A base name made of one leading dot and no other dot (a hidden file such
   * as `.png`) has no extension, in whatever directory it sits, so the
   * filter drops it.
   */
  lemma {:induction false} HiddenNameDropped(dir: string, s: string)
    requires dir == [] || dir[|dir| - 1] == '/'
    requires '.' !in s && '/' !in s
    ensures Extension(dir + "." + s) == []
    ensures !IsImage(dir + "." + s)
  {
    var p := dir + "." + s;
    SplitExtSpec(p);
    forall i ensures !ExtStart(p, i) {
      if 0 <= i < |p| && LastDotOfName(p, i) {
        assert p[|dir|] == '.';
        assert forall j :: |dir| < j < |p| ==> p[j] == s[j - |dir| - 1];
        assert i == |dir|;
        forall k | 0 <= k < i ensures !StemChar(p, k, i) {
          assert p[i - 1] == '/';
        }
      }
    }
  }

  /** Hidden files are dropped at the top of the folder and below it. */
  lemma DroppedHiddenExamples()
    ensures !IsImage("images/.png")
  {
    HiddenNameDropped("images/", "png");
    assert "images/" + "." + "png" == "images/.png";
  }

  /** A dot in a directory name does not give the key an extension. */
  lemma DroppedDotInDirectory()
    ensures !IsImage("album.png/readme")
  {
    var d := "album.png/readme";
    RFindAt(d, '/', 9);
    RFindAt(d, '.', 5);
    assert Extension(d) == [];
  }

  /** `os.path.join(a, b)` with two arguments (POSIX): an absolute `b` wins. */
  function Join(a: string, b: string): (r: string)
    ensures |b| > 0 && b[0] == '/' ==> r == b
    ensures !(|b| > 0 && b[0] == '/') ==> |a| + |b| <= |r| <= |a| + |b| + 1
  {
    if |b| > 0 && b[0] == '/' then b
    else if a == [] || a[|a| - 1] == '/' then a + b
    else a + "/" + b
  }

  /**
   * The path of a file relative to the walked folder: `relDir` is the
   * directory relative to the folder ("" for the folder itself).
   */
  function RelPath(relDir: string, name: string): (p: string)
    ensures relDir == [] ==> p == name
    ensures relDir != [] ==> |p| == |relDir| + 1 + |name|
  {
    if relDir == [] then name else relDir + "/" + name
  }

  /**
   * Joining a relative tail keeps the head as a prefix and the tail as a
   * suffix; a '/' is put between them exactly when the head is non-empty
   * and does not already end with one.
   */
  lemma JoinParts(a: string, b: string)
    requires !(|b| > 0 && b[0] == '/')
    ensures a <= Join(a, b)
    ensures Join(a, b)[|Join(a, b)| - |b|..] == b
    ensures a == [] || a[|a| - 1] == '/' ==> |Join(a, b)| == |a| + |b|
    ensures a != [] && a[|a| - 1] != '/' ==> |Join(a, b)| == |a| + 1 + |b| && Join(a, b)[|a|] == '/'
  {
  }

  /** A path under a subdirectory is that directory, a '/', then the file name. */
  lemma RelPathParts(relDir: string, name: string)
    ensures relDir != [] ==> relDir <= RelPath(relDir, name) && RelPath(relDir, name)[|relDir|] == '/'
    ensures RelPath(relDir, name)[|RelPath(relDir, name)| - |name|..] == name
  {
  }

  /** `.replace("\\", "/")`. */
  function SlashBackslashes(s: string): (r: string)
    ensures |r| == |s|
    ensures forall k :: 0 <= k < |s| ==> r[k] == if s[k] == '\\' then '/' else s[k]
  {
    seq(|s|, k requires 0 <= k < |s| => if s[k] == '\\' then '/' else s[k])
  }

  /** The object key the uploader gives a file. */
  function ObjectKey(prefix: string, relDir: string, name: string): (key: string)
    ensures '\\' !in key
  {
    SlashBackslashes(Join(prefix, RelPath(relDir, name)))
  }

  lemma {:induction false} SlashBackslashesAppend(a: string, b: string)
    ensures SlashBackslashes(a + b) == SlashBackslashes(a) + SlashBackslashes(b)
  {
    var l, r := SlashBackslashes(a + b), SlashBackslashes(a) + SlashBackslashes(b);
    assert |l| == |r|;
    forall k | 0 <= k < |l| ensures l[k] == r[k] {
      if k < |a| { assert (a + b)[k] == a[k]; } else { assert (a + b)[k] == b[k - |a|]; }
    }
  }

  /**
   * Every key is the prefix followed by the relative path (with a '/'
   * between them unless the prefix is empty or already ends with one), both
   * with backslashes rewritten, and no key contains a backslash. A file name
   * never contains '/', and the relative directory is relative.
   */
  lemma {:induction false} ObjectKeyShape(prefix: string, relDir: string, name: string)
    requires '/' !in name
    requires relDir == [] || relDir[0] != '/'
    ensures '\\' !in ObjectKey(prefix, relDir, name)
    ensures prefix == [] || prefix[|prefix| - 1] == '/' ==>
      ObjectKey(prefix, relDir, name) ==
        SlashBackslashes(prefix) + SlashBackslashes(RelPath(relDir, name))
    ensures prefix != [] && prefix[|prefix| - 1] != '/' ==>
      ObjectKey(prefix, relDir, name) ==
        SlashBackslashes(prefix) + "/" + SlashBackslashes(RelPath(relDir, name))
  {
    var rel := RelPath(relDir, name);
    assert !(|rel| > 0 && rel[0] == '/') by {
      if relDir == [] {
        if |name| > 0 { assert name[0] in name; }
      } else {
        assert rel[0] == relDir[0];
      }
    }
    var key := ObjectKey(prefix, relDir, name);
    assert forall k :: 0 <= k < |key| ==> key[k] != '\\';
    if prefix == [] || prefix[|prefix| - 1] == '/' {
      SlashBackslashesAppend(prefix, rel);
    } else {
      SlashBackslashesAppend(prefix + "/", rel);
      SlashBackslashesAppend(prefix, "/");
      assert SlashBackslashes("/") == "/";
    }
  }
}
