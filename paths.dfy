/** Resolution of a chapter `href` against the package document's location
    (`resolvePath`, reader.js:248-251). */
module Paths {
  import opened Text

  /** `String.prototype.lastIndexOf` for one character: -1 when absent,
      otherwise the position of the last occurrence. */
  function LastIndexOf(s: string, c: char): (r: int)
    ensures -1 <= r < |s|
    ensures r == -1 ==> c !in s
    ensures r >= 0 ==> s[r] == c && c !in s[r + 1..]
    decreases |s|
  {
    if s == [] then -1
    else if s[|s| - 1] == c then |s| - 1
    else
      var front := s[..|s| - 1];
      assert s == front + [s[|s| - 1]];
      LastIndexOf(front, c)
  }

  /** The directory of a path: the prefix up to and including the last `/`,
      empty when there is none. */
  function BaseDir(path: string): string {
    path[..LastIndexOf(path, '/') + 1]
  }

  /** `baseDir + relativePath` as the reader computes it. */
  function ResolvePath(basePath: string, relativePath: string): string {
    BaseDir(basePath) + relativePath
  }

  /** A directory computed from the other end: drop characters from the right
      until a `/` is last. */
  function DirByTrimming(path: string): string
    decreases |path|
  {
    if path == [] then []
    else if path[|path| - 1] == '/' then path
    else DirByTrimming(path[..|path| - 1])
  }

  /** BaseDir agrees with the independent right-to-left definition. */
  lemma {:induction false} BaseDirByTrimming(path: string)
    ensures BaseDir(path) == DirByTrimming(path)
    decreases |path|
  {
    if path != [] && path[|path| - 1] != '/' {
      var shorter := path[..|path| - 1];
      BaseDirByTrimming(shorter);
      assert LastIndexOf(path, '/') == LastIndexOf(shorter, '/');
      assert path[..LastIndexOf(path, '/') + 1] == shorter[..LastIndexOf(shorter, '/') + 1];
    }
  }

  /** The directory is a prefix of the path, is empty or ends in `/`, and the
      rest of the path holds no further `/`. */
  lemma BaseDirShape(path: string)
    ensures var d := BaseDir(path);
      && d <= path
      && (d == [] || d[|d| - 1] == '/')
      && '/' !in path[|d|..]
      && (d == [] <==> '/' !in path)
  {
    var i := LastIndexOf(path, '/');
    if i >= 0 {
      assert path[i] in path;
    }
  }

  /** The properties of resolvePath: the result is the package directory
      followed by the href, so it always ends with the href; with no `/` in the
      base the href comes back unchanged. */
  lemma ResolvePathShape(basePath: string, relativePath: string)
    ensures var r := ResolvePath(basePath, relativePath);
      && EndsWith(r, relativePath)
      && r[..|r| - |relativePath|] == BaseDir(basePath)
      && ('/' !in basePath ==> r == relativePath)
  {
    var r := ResolvePath(basePath, relativePath);
    assert r[|r| - |relativePath|..] == relativePath;
    BaseDirShape(basePath);
  }

  /** Resolving a plain file name (no `/`) keeps it in the same directory as the
      package document. */
  lemma {:induction false} ResolvedSibling(basePath: string, name: string)
    requires '/' !in name
    ensures BaseDir(ResolvePath(basePath, name)) == BaseDir(basePath)
  {
    var d := BaseDir(basePath);
    var r := d + name;
    BaseDirShape(basePath);
    BaseDirByTrimming(r);
    BaseDirByTrimming(basePath);
    TrimmingPastName(d, name);
    assert DirByTrimming(d) == d by {
      if d != [] { assert d[|d| - 1] == '/'; }
    }
  }

  lemma {:induction false} TrimmingPastName(d: string, name: string)
    requires '/' !in name
    ensures DirByTrimming(d + name) == DirByTrimming(d)
    decreases |name|
  {
    if name != [] {
      var shorter := name[..|name| - 1];
      assert (d + name)[..|d + name| - 1] == d + shorter;
      assert name[|name| - 1] in name;
      TrimmingPastName(d, shorter);
    } else {
      assert d + name == d;
    }
  }
}
