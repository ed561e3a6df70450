/** The file listings the scanners and validators start from. A `glob` call
    is abstracted as the list of relative file paths under the base
    directory, in the order the walk produces them; each caller keeps the
    paths its pattern and `ignore` list select. The file system is a map
    from the paths that exist to their contents. */
module Scan {
  import opened Strings
  import opened Wrappers

  /** The pieces of a relative path between `/` separators. */
  function Pieces(path: string): (ps: seq<string>)
    ensures |ps| >= 1
  {
    SplitOn(path, "/")
  }

  /** The last piece: the file name. */
  function FileName(path: string): string {
    var ps := Pieces(path);
    ps[|ps| - 1]
  }

  /** Some directory piece of the path is one of `dirs`: the path falls
      under one of the ignored directories, at any depth. */
  predicate UnderIgnoredDir(path: string, dirs: set<string>) {
    exists i :: 0 <= i < |Pieces(path)| - 1 && Pieces(path)[i] in dirs
  }

  /** What a recursive glob for file names ending in `suffix` keeps: the
      file name ends in `suffix`, no directory piece is ignored, and the
      file name does not end in one of the ignored endings. */
  predicate Selected(path: string, suffix: string, dirs: set<string>, endings: seq<string>) {
    && EndsWith(FileName(path), suffix)
    && !UnderIgnoredDir(path, dirs)
    && forall k :: 0 <= k < |endings| ==> !EndsWith(FileName(path), endings[k])
  }

  /** `a` is `b` with some elements dropped, the rest in their order. */
  predicate Subsequence<T(==)>(a: seq<T>, b: seq<T>)
    decreases |b|
  {
    if |a| == 0 then true
    else if |b| == 0 then false
    else if a[0] == b[0] then Subsequence(a[1..], b[1..])
    else Subsequence(a, b[1..])
  }

  /** The elements of `xs` that `keep` accepts, in their order. */
  function Filter(xs: seq<string>, keep: string -> bool): (r: seq<string>)
    ensures forall x :: x in r <==> x in xs && keep(x)
    ensures Subsequence(r, xs)
    ensures |r| <= |xs|
  {
    if |xs| == 0 then []
    else
      var rest := Filter(xs[1..], keep);
      assert forall x :: x in xs <==> x == xs[0] || x in xs[1..];
      if keep(xs[0]) then
        assert ([xs[0]] + rest)[1..] == rest;
        [xs[0]] + rest
      else
        rest
  }

  /** Filtering a list whose every element is kept gives it back. */
  lemma {:induction false} FilterAll(xs: seq<string>, keep: string -> bool)
    requires forall k :: 0 <= k < |xs| ==> keep(xs[k])
    ensures Filter(xs, keep) == xs
  {
    if |xs| > 0 {
      FilterAll(xs[1..], keep);
      assert [xs[0]] + xs[1..] == xs;
    }
  }

  /** Filtering distributes over concatenation. */
  lemma {:induction false} FilterAppend(a: seq<string>, b: seq<string>, keep: string -> bool)
    ensures Filter(a + b, keep) == Filter(a, keep) + Filter(b, keep)
  {
    if |a| == 0 {
      assert a + b == b;
    } else {
      assert (a + b)[0] == a[0];
      assert (a + b)[1..] == a[1..] + b;
      FilterAppend(a[1..], b, keep);
    }
  }

  /** A path whose first piece is an ignored directory is not selected. */
  lemma IgnoredTopDir(d: string, rest: string, suffix: string, dirs: set<string>, endings: seq<string>)
    requires d in dirs && '/' !in d
    ensures !Selected(d + "/" + rest, suffix, dirs, endings)
  {
    var p := d + "/" + rest;
    NotContainsByChar(d, "/", 0);
    assert p == d + ['/'] + rest;
    FirstCharOf(d, '/', rest);
    SplitAt(p, "/", |d|);
    assert p[..|d|] == d;
    assert p[|d| + 1..] == rest;
    assert Pieces(p)[0] == d;
  }

  /** The file system: the paths that exist, with their contents. */
  type FileSystem = map<string, string>

  /** Node's message for reading a path that does not exist. */
  function NoSuchFile(path: string): string {
    "ENOENT: no such file or directory, open '" + path + "'"
  }

  /** `fs.readFile(path, 'utf-8')`: the contents, or the error it throws. */
  function ReadFile(fs: FileSystem, path: string): (r: Result<string, string>)
    ensures r.Ok? <==> path in fs
    ensures r.Ok? ==> r.value == fs[path]
  {
    if path in fs then Ok(fs[path]) else Err(NoSuchFile(path))
  }
}
