/** The extension replacement `get_processed_path` of the task processor, with
    the final-segment and extension rules that `std::path::Path` applies on Unix.

    Paths are character sequences. The source cuts `ext_len` BYTES from the end
    of the UTF-8 text; the cut always falls just before an ASCII `.`, so cutting
    `|ext| + 1` CHARACTERS gives the same text, multi-byte segments included. */
module PathRepair {
  import opened Common

  /** Index of the last occurrence of `c` in `s`, if any. */
  function LastIndexOf(s: string, c: char): (r: Option<nat>)
    ensures r.Some? ==> r.value < |s| && s[r.value] == c
    ensures r.Some? ==> forall j :: r.value < j < |s| ==> s[j] != c
    ensures r.None? ==> forall j :: 0 <= j < |s| ==> s[j] != c
  {
    if |s| == 0 then None
    else if s[|s| - 1] == c then Some(|s| - 1)
    else LastIndexOf(s[..|s| - 1], c)
  }

  /** The contract of `LastIndexOf` determines it: a last occurrence is the answer. */
  lemma LastIndexOfIs(s: string, c: char, k: nat)
    requires k < |s| && s[k] == c
    requires forall j :: k < j < |s| ==> s[j] != c
    ensures LastIndexOf(s, c) == Some(k)
  {
  }

  /** Paths on which std's component normalisation does not change the final
      segment: no trailing `/` and no trailing `/.` component. Only on these is
      the text after the last `/` what `Path::file_name` returns. */
  predicate Normalised(path: string)
  {
    !(|path| >= 1 && path[|path| - 1] == '/') && !(|path| >= 2 && path[|path| - 2..] == "/.")
  }

  /** Start of the final `/`-separated segment: one past the last `/`, or 0. */
  function SegmentStart(path: string): (i: nat)
    ensures i <= |path|
    ensures forall j :: i <= j < |path| ==> path[j] != '/'
    ensures 0 < i ==> path[i - 1] == '/'
  {
    match LastIndexOf(path, '/')
    case None => 0
    case Some(k) => k + 1
  }

  /** The final segment, `Path::file_name` on a normalised path. */
  function FileName(path: string): string
  {
    path[SegmentStart(path)..]
  }

  /** `Path::extension`: the text after the last `.` of the final segment; none
      when the segment has no `.`, when its only `.` is its first character
      (`.bashrc`), or when the segment is `..`. `file.` has the empty extension. */
  function Extension(path: string): (ext: Option<string>)
  {
    var name := FileName(path);
    if name == ".." then None
    else match LastIndexOf(name, '.')
      case None => None
      case Some(k) => if k == 0 then None else Some(name[k + 1..])
  }

  /** `ext_len`: the extension's length plus one for its dot, or 0 without one. */
  function ExtLen(path: string): (n: nat)
    ensures n <= |path|
  {
    match Extension(path)
    case None => 0
    case Some(e) => |e| + 1
  }

  /** `get_processed_path`: the path with its extension (and its dot) cut
      off and `newExt` appended. */
  function ProcessedPath(path: string, newExt: string): (r: string)
    requires Normalised(path)
    ensures |r| >= |newExt| && r[|r| - |newExt|..] == newExt
    ensures Extension(path).None? ==> r == path + newExt
    ensures Extension(path).Some? ==> path == r[..|r| - |newExt|] + "." + Extension(path).value
  {
    ExtensionShape(path);
    path[..|path| - ExtLen(path)] + newExt
  }

  /** An extension is a `.`-free, `/`-free suffix of the path that follows a
      `.`, and that `.` is not the first character of the final segment. */
  lemma ExtensionShape(path: string)
    ensures Extension(path).Some? ==>
      var e := Extension(path).value;
      var dot := |path| - |e| - 1;
      SegmentStart(path) < dot && path[dot] == '.' && path[dot + 1..] == e &&
      (forall j :: 0 <= j < |e| ==> e[j] != '.' && e[j] != '/') &&
      !(e == [] && FileName(path) == "..")
  {
    if Extension(path).Some? {
      var name := FileName(path);
      var k := LastIndexOf(name, '.').value;
      var e := name[k + 1..];
      assert Extension(path) == Some(e);
      var start := SegmentStart(path);
      assert |path| - |e| - 1 == start + k;
      assert path[start + k + 1..] == e;
      forall j | 0 <= j < |e| ensures e[j] != '.' && e[j] != '/' {
        assert e[j] == name[k + 1 + j] == path[start + k + 1 + j];
      }
    }
  }

  /** No extension exactly when the final segment is `..` or has no `.` past
      its first character. */
  lemma {:induction false} NoExtensionIff(path: string)
    ensures Extension(path).None? <==>
      (FileName(path) == ".." || forall j :: 0 < j < |FileName(path)| ==> FileName(path)[j] != '.')
  {
    var name := FileName(path);
    if name != ".." && (forall j :: 0 < j < |name| ==> name[j] != '.') {
        match LastIndexOf(name, '.') {
        case None =>
        case Some(k) => assert k == 0;
      }
    }
  }

  /** Converse of `ExtensionShape`: every shape it describes has that extension. */
  lemma ExtensionOfSplit(stem: string, e: string)
    requires stem != [] && stem[|stem| - 1] != '/'
    requires forall j :: 0 <= j < |e| ==> e[j] != '.' && e[j] != '/'
    requires !(e == [] && FileName(stem) == ".")
    ensures Extension(stem + "." + e) == Some(e)
  {
    var path := stem + "." + e;
    var start := SegmentStart(stem);
    match LastIndexOf(stem, '/') {
    case None =>
      assert forall j :: 0 <= j < |path| ==> path[j] != '/' by {
        forall j | 0 <= j < |path| ensures path[j] != '/' {
          if j < |stem| { assert path[j] == stem[j]; }
          else if j > |stem| { assert path[j] == e[j - |stem| - 1]; }
        }
      }
      assert SegmentStart(path) == 0;
    case Some(k) =>
      forall j | k < j < |path| ensures path[j] != '/' {
        if j < |stem| { assert path[j] == stem[j]; }
        else if j > |stem| { assert path[j] == e[j - |stem| - 1]; }
      }
      LastIndexOfIs(path, '/', k);
      assert SegmentStart(path) == k + 1 == start;
    }
    var name := FileName(path);
    var base := FileName(stem);
    assert name == base + "." + e;
    assert |base| > 0 by { assert stem[|stem| - 1] != '/'; }
    forall j | |base| < j < |name| ensures name[j] != '.' {
      assert name[j] == e[j - |base| - 1];
    }
    LastIndexOfIs(name, '.', |base|);
    assert name[|base| + 1..] == e;
  }

  /** With the path ending in a separator-free segment, a segment of `dir`
      followed by a `.`-free, `/`-free name has no extension. */
  lemma NoExtensionOfSplit(dir: string, name: string)
    requires dir != [] && dir[|dir| - 1] == '/'
    requires forall j :: 0 <= j < |name| ==> name[j] != '.' && name[j] != '/'
    ensures Extension(dir + name) == None
  {
    var path := dir + name;
    forall j | |dir| - 1 < j < |path| ensures path[j] != '/' {
      assert path[j] == name[j - |dir|];
    }
    LastIndexOfIs(path, '/', |dir| - 1);
    assert FileName(path) == name;
    NoExtensionIff(path);
  }

  /** Everything before the cut is kept character for character, and the new
      extension follows it. */
  lemma RepairKeepsStem(path: string, newExt: string)
    requires Normalised(path)
    ensures var r := ProcessedPath(path, newExt);
      var cut := |path| - ExtLen(path);
      SegmentStart(path) <= cut && |r| == cut + |newExt| &&
      (forall j :: 0 <= j < cut ==> r[j] == path[j]) &&
      (forall j :: 0 <= j < |newExt| ==> r[cut + j] == newExt[j])
  {
    ExtensionShape(path);
  }

  /** Repairing a non-empty path with an extension `.x` gives a path whose
      extension is `x`, so repairing it again changes nothing. */
  lemma RepairIdempotent(path: string, x: string)
    requires Normalised(path) && path != []
    requires x != [] && forall j :: 0 <= j < |x| ==> x[j] != '.' && x[j] != '/'
    ensures Extension(ProcessedPath(path, "." + x)) == Some(x)
    ensures Normalised(ProcessedPath(path, "." + x))
    ensures ProcessedPath(ProcessedPath(path, "." + x), "." + x) == ProcessedPath(path, "." + x)
  {
    var r := ProcessedPath(path, "." + x);
    var cut := |path| - ExtLen(path);
    var stem := path[..cut];
    ExtensionShape(path);
    assert r == stem + "." + x;
    assert stem != [] && stem[|stem| - 1] != '/' by {
      if Extension(path).Some? {
        assert SegmentStart(path) < cut;
        assert stem[cut - 1] == path[cut - 1];
      } else {
        assert stem == path;
      }
    }
    ExtensionOfSplit(stem, x);
    assert r[|r| - 1] == x[|x| - 1];
    assert r[..|r| - |x| - 1] == stem;
  }

  /** Repairing a path whose final segment has the extension `e`. */
  lemma RepairOfSplit(path: string, stem: string, e: string, newExt: string)
    requires path == stem + "." + e
    requires stem != [] && stem[|stem| - 1] != '/'
    requires e != [] && forall j :: 0 <= j < |e| ==> e[j] != '.' && e[j] != '/'
    ensures Normalised(path)
    ensures ProcessedPath(path, newExt) == stem + newExt
  {
    assert path[|path| - 1] == e[|e| - 1];
    ExtensionOfSplit(stem, e);
    assert path[..|path| - |e| - 1] == stem;
  }

  /** Repairing a path whose final segment has no `.`. */
  lemma RepairWithoutDot(path: string, dir: string, name: string, newExt: string)
    requires path == dir + name
    requires dir != [] && dir[|dir| - 1] == '/'
    requires name != [] && forall j :: 0 <= j < |name| ==> name[j] != '.' && name[j] != '/'
    ensures Normalised(path)
    ensures ProcessedPath(path, newExt) == path + newExt
  {
    assert path[|path| - 1] == name[|name| - 1];
    NoExtensionOfSplit(dir, name);
  }

  /** The first case of the source's unit test: an ASCII path with an extension. */
  lemma RepairExampleAscii()
    ensures ProcessedPath("/path/to/file.opus", ".m4a") == "/path/to/file.m4a"
  {
    RepairOfSplit("/path/to/file.opus", "/path/to/file", "opus", ".m4a");
  }

  /** The second case of the source's unit test: a path without an extension. */
  lemma RepairExampleNoExtension()
    ensures ProcessedPath("/path/to/file-without-ext", ".m4a") == "/path/to/file-without-ext.m4a"
  {
    RepairWithoutDot("/path/to/file-without-ext", "/path/to/", "file-without-ext", ".m4a");
  }

  /** The third case of the source's unit test: a directory name in CJK characters. */
  lemma RepairExampleCjk()
    ensures ProcessedPath("/全字符路径/Artist - Title.opus", ".m4a") == "/全字符路径/Artist - Title.m4a"
  {
    RepairOfSplit("/全字符路径/Artist - Title.opus", "/全字符路径/Artist - Title", "opus", ".m4a");
  }
}
