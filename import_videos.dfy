/**
 * The split of the importer's output path into the directory the video
 * table goes to and the name of the JSON file inside it: the path is cut at
 * its last '/' with str.rfind, Python slicing and str.replace.
 */
module ImportVideos {

  /** str.rfind for one character: the last index holding c, or -1. */
  function RFind(s: string, c: char): (r: int)
    ensures -1 <= r < |s|
    ensures r == -1 <==> c !in s
    ensures r >= 0 ==> s[r] == c && c !in s[r + 1..]
    decreases |s|
  {
    if s == [] then -1
    else if s[|s| - 1] == c then |s| - 1
    else
      assert s == s[..|s| - 1] + [s[|s| - 1]];
      RFind(s[..|s| - 1], c)
  }

  /** A Python slice bound: a negative index counts from the end, and either kind is clamped to the string. */
  function SliceBound(n: nat, i: int): (k: nat)
    ensures k <= n
    ensures 0 <= i <= n ==> k == i
    ensures -(n as int) <= i < 0 ==> k as int == n as int + i
  {
    if i < 0 then (if n + i < 0 then 0 else n + i)
    else if i > n then n
    else i
  }

  /** s[:i] */
  function SliceTo(s: string, i: int): string {
    s[..SliceBound(|s|, i)]
  }

  /** s[i:] */
  function SliceFrom(s: string, i: int): string {
    s[SliceBound(|s|, i)..]
  }

  /** str.replace(c, ""): every c removed, the other characters kept in order. */
  function RemoveAll(s: string, c: char): (r: string)
    ensures c !in r
    ensures |r| <= |s|
    ensures forall x :: x in r <==> x in s && x != c
    ensures forall x :: x != c ==> multiset(r)[x] == multiset(s)[x]
    decreases |s|
  {
    if s == [] then []
    else
      assert s == [s[0]] + s[1..];
      (if s[0] == c then [] else [s[0]]) + RemoveAll(s[1..], c)
  }

  /** The replace works piece by piece, so the kept characters stay in their order. */
  lemma {:induction false} RemoveAllConcat(a: string, b: string, c: char)
    ensures RemoveAll(a + b, c) == RemoveAll(a, c) + RemoveAll(b, c)
    decreases |a|
  {
    if a != [] {
      assert (a + b)[1..] == a[1..] + b;
      RemoveAllConcat(a[1..], b, c);
    } else {
      assert a + b == b;
    }
  }

  /** A string free of c is left as it is. */
  lemma {:induction false} RemoveAllAbsent(s: string, c: char)
    requires c !in s
    ensures RemoveAll(s, c) == s
    decreases |s|
  {
    if s != [] {
      assert s[0] != c;
      RemoveAllAbsent(s[1..], c);
      assert s == [s[0]] + s[1..];
    }
  }

  /** Removing from one leading c and a c-free rest leaves the rest. */
  lemma RemoveLeading(c: char, rest: string)
    requires c !in rest
    ensures RemoveAll([c] + rest, c) == rest
  {
    assert ([c] + rest)[1..] == rest;
    RemoveAllAbsent(rest, c);
  }

  /** Lines 23-25 as written: (dir_out, out_file). */
  function SplitOutPath(path: string): (r: (string, string))
    ensures '/' !in r.1
  {
    var sep := RFind(path, '/');
    (SliceTo(path, sep), RemoveAll(SliceFrom(path, sep), '/'))
  }

  /** With a '/' in the path, dir_out is the prefix before the last one. */
  lemma DirBeforeLastSlash(path: string)
    requires '/' in path
    ensures SplitOutPath(path).0 == path[..RFind(path, '/')]
  {
    assert SliceBound(|path|, RFind(path, '/')) == RFind(path, '/');
  }

  /** With a '/' in the path, out_file is the suffix after the last one. */
  lemma FileAfterLastSlash(path: string)
    requires '/' in path
    ensures SplitOutPath(path).1 == path[RFind(path, '/') + 1..]
  {
    var sep := RFind(path, '/');
    var rest := path[sep + 1..];
    assert SliceFrom(path, sep) == [path[sep]] + rest;
    RemoveLeading('/', rest);
  }

  /** Cutting a string around one of its characters and putting the three pieces back gives the string. */
  lemma Reassemble(s: string, i: int)
    requires 0 <= i < |s|
    ensures s[..i] + [s[i]] + s[i + 1..] == s
  {
  }

  /** With a '/' in the path, dir_out is everything before the last one and out_file everything after it. */
  lemma SplitAtLastSlash(path: string)
    requires '/' in path
    ensures var (dirOut, outFile) := SplitOutPath(path);
            dirOut + "/" + outFile == path && '/' !in outFile && dirOut == path[..RFind(path, '/')]
  {
    DirBeforeLastSlash(path);
    FileAfterLastSlash(path);
    Reassemble(path, RFind(path, '/'));
  }

  /** Without a '/', rfind gives -1: dir_out loses the last character and out_file is that character. */
  lemma SplitWithoutSlash(path: string)
    requires '/' !in path && |path| > 0
    ensures SplitOutPath(path) == (path[..|path| - 1], [path[|path| - 1]])
  {
    var last := path[|path| - 1..];
    assert last == [path[|path| - 1]];
    RemoveAllAbsent(last, '/');
  }

  /** A bare file name is cut one character from its end. */
  lemma BareFileNameSplit()
    ensures SplitOutPath("video.json") == ("video.jso", "n")
  {
    var path := "video.json";
    SplitWithoutSlash(path);
    assert path[..|path| - 1] == "video.jso";
    assert [path[|path| - 1]] == "n";
  }

  /** (dir_out, out_file) as intended: a path without '/' is a file in the current directory. */
  function SplitOutPathFixed(path: string): (r: (string, string))
    ensures '/' !in r.1
    ensures r.0 + (if '/' in path then "/" else "") + r.1 == path
  {
    if '/' in path then
      SplitAtLastSlash(path);
      SplitOutPath(path)
    else
      ("", path)
  }

  /** The corrected split agrees with the code whenever the path has a '/'. */
  lemma FixAgreesWithSlash(path: string)
    requires '/' in path
    ensures SplitOutPathFixed(path) == SplitOutPath(path)
  {
  }
}
