/** `findComponents`: the Ionic pages to convert. The glob walk is a listing
    of relative paths under the base directory; `fs.pathExists` is
    membership in the file system map. */
module Finder {
  import opened Wrappers
  import opened Strings
  import opened Paths
  import opened Scan
  import Validation

  /** One page found: its name, its directory relative to the base
      directory, its files (the style file only when it exists) and its
      directory. */
  datatype PageComponent = PageComponent(
    name: string, path: string, htmlFile: string, scssFile: Option<string>,
    tsFile: string, fullPath: string)

  /** What the glob for `*.page.ts` keeps: outside `node_modules` and
      `dist`, and not ending in `.spec.ts`. */
  predicate PageSelected(path: string) {
    Selected(path, ".page.ts", {"node_modules", "dist"}, [".spec.ts"])
  }

  /** The `*.spec.ts` ignore entry never removes a `*.page.ts` file. */
  lemma SpecIgnoreIdle(path: string)
    ensures PageSelected(path) <==> Selected(path, ".page.ts", {"node_modules", "dist"}, [])
  {
    var n := FileName(path);
    if EndsWith(n, ".page.ts") {
      assert n[|n| - 8..][1] == 'p';
      assert !EndsWith(n, ".spec.ts");
    }
  }

  /** Every file the page names exists. */
  predicate FilesExist(c: PageComponent, fs: FileSystem) {
    c.htmlFile in fs && c.tsFile in fs && (c.scssFile.Some? ==> c.scssFile.value in fs)
  }

  /** The page a listed `file` describes, when its template and its own
      file exist. */
  function Describe(cwd: string, baseDir: string, file: string, fs: FileSystem): (r: Option<PageComponent>)
    requires IsAbsolute(cwd)
    ensures r.Some? ==> r.value.tsFile == Join(baseDir, file) && r.value.fullPath == Dirname(r.value.tsFile)
    ensures r.Some? ==> FilesExist(r.value, fs)
  {
    var fullPath := Join(baseDir, file);
    var dir := Dirname(fullPath);
    var baseName := Basename(file, ".page.ts");
    var htmlFile := Join(dir, baseName + ".page.html");
    var scssFile := Join(dir, baseName + ".page.scss");
    if htmlFile in fs && fullPath in fs then
      Some(PageComponent(baseName, Relative(cwd, baseDir, dir), htmlFile,
                         if scssFile in fs then Some(scssFile) else None, fullPath, dir))
    else None
  }

  /** The results `describe` gives for the files, in file order, the
      files it gives none for left out. */
  function Collect<T>(files: seq<string>, describe: string -> Option<T>): (found: seq<T>)
    ensures |found| <= |files|
  {
    if |files| == 0 then []
    else Found(describe(files[0])) + Collect(files[1..], describe)
  }

  /** What one description contributes to a collection. */
  function Found<T>(r: Option<T>): seq<T> {
    match r
    case None => []
    case Some(c) => [c]
  }

  /** `findComponents(baseDir)`, with `process.cwd()` = `cwd`. */
  function FindComponents(cwd: string, baseDir: string, listed: seq<string>, fs: FileSystem): (pages: seq<PageComponent>)
    requires IsAbsolute(cwd)
    ensures |pages| <= |Filter(listed, PageSelected)|
    ensures forall c :: c in pages ==> FilesExist(c, fs)
  {
    var files := Filter(listed, PageSelected);
    var describe := f => Describe(cwd, baseDir, f, fs);
    assert forall c :: c in Collect(files, describe) ==> FilesExist(c, fs) by {
      forall c | c in Collect(files, describe)
        ensures FilesExist(c, fs)
      {
        CollectMembers(files, describe, c);
        var k :| 0 <= k < |files| && describe(files[k]) == Some(c);
      }
    }
    Collect(files, describe)
  }

  /** A file gives a page exactly when its template and its own file exist;
      the page names its style file exactly when that exists, and its own
      file is the joined path. */
  lemma DescribeRules(cwd: string, baseDir: string, file: string, fs: FileSystem)
    requires IsAbsolute(cwd)
    ensures var fullPath := Join(baseDir, file);
            var dir := Dirname(fullPath);
            var d := Describe(cwd, baseDir, file, fs);
            && (d.Some? <==> Join(dir, Basename(file, ".page.ts") + ".page.html") in fs && fullPath in fs)
            && (d.Some? ==> d.value.tsFile == fullPath && d.value.fullPath == dir)
            && (d.Some? ==> (d.value.scssFile.Some? <==> Join(dir, Basename(file, ".page.ts") + ".page.scss") in fs))
            && (d.Some? && d.value.scssFile.Some? ==> d.value.scssFile.value in fs)
            && (d.Some? ==> d.value.htmlFile in fs)
  {
  }

  /** The results collected are the results of the files, no others. */
  lemma {:induction false} CollectMembers<T>(files: seq<string>, describe: string -> Option<T>, c: T)
    ensures c in Collect(files, describe) <==> exists k :: 0 <= k < |files| && describe(files[k]) == Some(c)
    decreases |files|
  {
    if |files| > 0 {
      CollectMembers(files[1..], describe, c);
      if c in Collect(files[1..], describe) {
        var k :| 0 <= k < |files[1..]| && describe(files[1..][k]) == Some(c);
        assert describe(files[k + 1]) == Some(c);
      }
      if exists k :: 0 <= k < |files| && describe(files[k]) == Some(c) {
        var k :| 0 <= k < |files| && describe(files[k]) == Some(c);
        if k > 0 {
          assert describe(files[1..][k - 1]) == Some(c);
        }
      }
    }
  }

  /** When every file gives a result, there is one result per file. */
  lemma {:induction false} CollectAll<T>(files: seq<string>, describe: string -> Option<T>)
    requires forall k :: 0 <= k < |files| ==> describe(files[k]).Some?
    ensures |Collect(files, describe)| == |files|
    decreases |files|
  {
    if |files| > 0 {
      CollectAll(files[1..], describe);
    }
  }

  /** A result is collected from a filtered listing exactly when a kept
      listed path gives it. */
  lemma CollectFiltered<T>(listed: seq<string>, keep: string -> bool, describe: string -> Option<T>, c: T)
    ensures c in Collect(Filter(listed, keep), describe)
            <==> exists f :: f in listed && keep(f) && describe(f) == Some(c)
  {
    var files := Filter(listed, keep);
    CollectMembers(files, describe, c);
    if exists f :: f in listed && keep(f) && describe(f) == Some(c) {
      var f :| f in listed && keep(f) && describe(f) == Some(c);
      assert f in files;
      var k :| 0 <= k < |files| && files[k] == f;
    }
  }

  /** A page is found exactly when a selected listed file describes it. */
  lemma FoundPages(cwd: string, baseDir: string, listed: seq<string>, fs: FileSystem, c: PageComponent)
    requires IsAbsolute(cwd)
    ensures c in FindComponents(cwd, baseDir, listed, fs)
            <==> exists f :: f in listed && PageSelected(f) && Describe(cwd, baseDir, f, fs) == Some(c)
  {
    CollectFiltered(listed, PageSelected, f => Describe(cwd, baseDir, f, fs), c);
  }

  /** Every selected page file whose template exists is found: one page
      per such file. */
  lemma AllPagesFound(cwd: string, baseDir: string, listed: seq<string>, fs: FileSystem)
    requires IsAbsolute(cwd)
    requires forall f :: f in listed && PageSelected(f) ==> Describe(cwd, baseDir, f, fs).Some?
    ensures |FindComponents(cwd, baseDir, listed, fs)| == |Filter(listed, PageSelected)|
  {
    var files := Filter(listed, PageSelected);
    assert forall k :: 0 <= k < |files| ==> files[k] in files;
    CollectAll(files, f => Describe(cwd, baseDir, f, fs));
  }

  lemma {:induction false} CommonPrefixExtends(a: seq<string>, b: seq<string>)
    ensures CommonPrefix(a, a + b) == |a|
    decreases |a|
  {
    if |a| > 0 {
      assert (a + b)[1..] == a[1..] + b;
      CommonPrefixExtends(a[1..], b);
    }
  }

  /** The segments of `a/sub/leaf`. */
  lemma SegmentsTwoDeep(a: string, sub: string, leaf: string)
    requires ProperSegment(sub) && ProperSegment(leaf)
    ensures Segments(a + "/" + (sub + "/" + leaf)) == Segments(a) + [sub] + [leaf]
  {
    var ab := a + "/" + sub;
    assert a + "/" + (sub + "/" + leaf) == ab + "/" + leaf by {
      Regroup(a + "/", sub + "/", leaf);
      Regroup(a + "/", sub, "/");
    }
    assert Segments(ab) == Segments(a) + [sub] by {
      SegmentsAppend(a, sub);
      SegmentsOfPiece(sub);
    }
    assert Segments(leaf) == [leaf] by {
      SegmentsOfPiece(leaf);
    }
    SegmentsAppend(ab, leaf);
  }

  /** Joining `sub/leaf` onto a canonical directory is joining `leaf` onto
      its child `sub`. */
  lemma JoinTwoDeep(baseDir: string, sub: string, leaf: string)
    requires Canonical(baseDir) && ProperSegment(sub) && ProperSegment(leaf)
    ensures Join(baseDir, sub + "/" + leaf) == Join(Join(baseDir, sub), leaf)
    ensures Canonical(Join(baseDir, sub))
  {
    var segs := Segments(baseDir) + [sub];
    var d := Join(baseDir, sub);
    assert d == AbsoluteOf(segs) && Canonical(d) by {
      JoinChild(baseDir, sub);
    }
    assert Segments(d) == segs by {
      CanonicalOf(segs);
    }
    assert Join(d, leaf) == AbsoluteOf(segs + [leaf]) by {
      JoinChild(d, leaf);
    }
    JoinDeepNormal(baseDir, sub, leaf);
  }

  /** `baseDir/sub/leaf` normalises to the absolute path of its segments. */
  lemma JoinDeepNormal(baseDir: string, sub: string, leaf: string)
    requires Canonical(baseDir) && ProperSegment(sub) && ProperSegment(leaf)
    ensures Join(baseDir, sub + "/" + leaf) == AbsoluteOf(Segments(baseDir) + [sub] + [leaf])
  {
    var p := baseDir + "/" + (sub + "/" + leaf);
    assert Segments(p) == Segments(baseDir) + [sub] + [leaf] by {
      SegmentsTwoDeep(baseDir, sub, leaf);
    }
    assert AllProper(Segments(p));
    assert p[|p| - 1] == leaf[|leaf| - 1];
    NormalizeProperAbsolute(p);
  }

  /** A page file `sub/name.page.ts` under a canonical base directory is
      described by `name`, the relative directory `sub`, and its siblings
      `name.page.html` and `name.page.scss` in `baseDir/sub`. */
  lemma PageInSubdirectory(cwd: string, baseDir: string, sub: string, name: string, fs: FileSystem)
    requires IsAbsolute(cwd) && Canonical(baseDir)
    requires ProperSegment(sub) && ProperSegment(name + ".page.ts") && name != ""
    ensures var dir := Join(baseDir, sub);
            var d := Describe(cwd, baseDir, sub + "/" + name + ".page.ts", fs);
            d.Some? ==>
              && d.value.name == name && d.value.path == sub && d.value.fullPath == dir
              && d.value.htmlFile == Join(dir, name + ".page.html")
              && d.value.tsFile == Join(dir, name + ".page.ts")
  {
    var leaf := name + ".page.ts";
    var file := sub + "/" + name + ".page.ts";
    var dir := Join(baseDir, sub);
    assert file == sub + "/" + leaf by {
      Regroup(sub + "/", name, ".page.ts");
    }
    assert Join(baseDir, file) == Join(dir, leaf) && Canonical(dir) by {
      JoinTwoDeep(baseDir, sub, leaf);
    }
    assert Dirname(Join(baseDir, file)) == dir by {
      ChildPathParts(dir, leaf);
    }
    assert Basename(file, ".page.ts") == name by {
      BaseOfPage(file, sub, name);
    }
    assert Relative(cwd, baseDir, dir) == sub by {
      RelativeToChild(cwd, baseDir, sub);
    }
    DescribeParts(cwd, baseDir, file, fs, name, sub, dir);
  }

  /** What `Describe` builds from the parts of the file's path. */
  lemma DescribeParts(cwd: string, baseDir: string, file: string, fs: FileSystem,
                      name: string, sub: string, dir: string)
    requires IsAbsolute(cwd)
    requires Dirname(Join(baseDir, file)) == dir && Basename(file, ".page.ts") == name
    requires Relative(cwd, baseDir, dir) == sub
    ensures var d := Describe(cwd, baseDir, file, fs);
            d.Some? ==>
              && d.value.name == name && d.value.path == sub && d.value.fullPath == dir
              && d.value.htmlFile == Join(dir, name + ".page.html")
              && d.value.tsFile == Join(baseDir, file)
  {
    var fullPath, htmlFile, scssFile := Join(baseDir, file), Join(dir, name + ".page.html"), Join(dir, name + ".page.scss");
    var scss := if scssFile in fs then Some(scssFile) else None;
    assert Describe(cwd, baseDir, file, fs)
           == if htmlFile in fs && fullPath in fs then Some(PageComponent(name, sub, htmlFile, scss, fullPath, dir)) else None;
  }

  lemma BaseOfPage(file: string, sub: string, name: string)
    requires file == sub + "/" + name + ".page.ts" && name != ""
    requires '/' !in name + ".page.ts"
    ensures Basename(file, ".page.ts") == name
  {
    assert file == sub + "/" + (name + ".page.ts");
    LastPieceOfChild(sub, name + ".page.ts");
    BasenameOfStem(file, name, ".page.ts");
  }

  /** The path of a child directory relative to its parent is its name. */
  lemma RelativeToChild(cwd: string, baseDir: string, sub: string)
    requires IsAbsolute(cwd) && Canonical(baseDir) && ProperSegment(sub)
    ensures Relative(cwd, baseDir, Join(baseDir, sub)) == sub
  {
    var d := Join(baseDir, sub);
    JoinChild(baseDir, sub);
    CanonicalOf(Segments(baseDir) + [sub]);
    ResolveCanonical(cwd, baseDir);
    ResolveCanonical(cwd, d);
    CommonPrefixExtends(Segments(baseDir), [sub]);
    var f := Segments(baseDir);
    var t := Segments(baseDir) + [sub];
    assert t[|f|..] == [sub];
    assert Ups(0) + [sub] == [sub];
  }

  // ---------------------------------------------------------------------
  // Listing order
  // ---------------------------------------------------------------------

  /** The own files of a list of pages, in order. */
  function TsFiles(pages: seq<PageComponent>): (r: seq<string>)
    ensures |r| == |pages|
    ensures forall i :: 0 <= i < |pages| ==> r[i] == pages[i].tsFile
  {
    seq(|pages|, i requires 0 <= i < |pages| => pages[i].tsFile)
  }

  /** The listed paths joined onto the base directory, in order. */
  function Joined(baseDir: string, files: seq<string>): (r: seq<string>)
    ensures |r| == |files|
    ensures forall i :: 0 <= i < |files| ==> r[i] == Join(baseDir, files[i])
  {
    seq(|files|, i requires 0 <= i < |files| => Join(baseDir, files[i]))
  }

  /** Collecting keeps the listing order: when each page's own file is
      its listed path joined onto the base directory, the pages' own
      files are the joined listing with the files that give no page
      dropped. */
  lemma {:induction false} CollectKeepsOrder(baseDir: string, files: seq<string>, describe: string -> Option<PageComponent>)
    requires forall f :: describe(f).Some? ==> describe(f).value.tsFile == Join(baseDir, f)
    ensures Subsequence(TsFiles(Collect(files, describe)), Joined(baseDir, files))
    decreases |files|
  {
    if |files| > 0 {
      var all := TsFiles(Collect(files, describe));
      var rest := TsFiles(Collect(files[1..], describe));
      var joined := Joined(baseDir, files);
      var later := Joined(baseDir, files[1..]);
      CollectKeepsOrder(baseDir, files[1..], describe);
      assert joined == [joined[0]] + later;
      var first := describe(files[0]);
      assert Collect(files, describe) == Found(first) + Collect(files[1..], describe);
      TsFilesAppend(Found(first), Collect(files[1..], describe));
      if first.None? {
        assert all == rest;
        Validation.SubsequenceSkip(rest, joined[0], later);
      } else {
        assert TsFiles(Found(first)) == [joined[0]];
        SubsequenceKeep(joined[0], rest, later);
      }
    }
  }

  lemma TsFilesAppend(a: seq<PageComponent>, b: seq<PageComponent>)
    ensures TsFiles(a + b) == TsFiles(a) + TsFiles(b)
  {
  }

  /** A subsequence stays one when both gain the same first element. */
  lemma SubsequenceKeep<T>(x: T, a: seq<T>, b: seq<T>)
    requires Subsequence(a, b)
    ensures Subsequence([x] + a, [x] + b)
  {
    assert ([x] + a)[1..] == a && ([x] + b)[1..] == b;
  }

  /** `findComponents` reports pages in the order the listing gives their
      files. */
  lemma PagesInListingOrder(cwd: string, baseDir: string, listed: seq<string>, fs: FileSystem)
    requires IsAbsolute(cwd)
    ensures Subsequence(TsFiles(FindComponents(cwd, baseDir, listed, fs)),
                        Joined(baseDir, Filter(listed, PageSelected)))
  {
    forall f | Describe(cwd, baseDir, f, fs).Some?
      ensures Describe(cwd, baseDir, f, fs).value.tsFile == Join(baseDir, f)
    {
      DescribeRules(cwd, baseDir, f, fs);
    }
    CollectKeepsOrder(baseDir, Filter(listed, PageSelected), f => Describe(cwd, baseDir, f, fs));
  }
}
