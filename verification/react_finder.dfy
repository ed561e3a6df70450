/** `findReactComponents` and `isReactComponent`: the React files to
    convert. The glob walks are listings of relative paths under the base
    directory; file contents come from the file system map. */
module ReactFinder {
  import opened Wrappers
  import opened Strings
  import opened Paths
  import opened Scan
  import opened Finder

  /** The directories both globs ignore. */
  const IgnoredDirs: set<string> := {"node_modules", "dist", "build", ".next", "out"}

  /** The test, spec and story file endings both globs ignore. */
  const IgnoredEndings: seq<string> :=
    [".test.tsx", ".test.jsx", ".spec.tsx", ".spec.jsx", ".stories.tsx", ".stories.jsx"]

  predicate TsxSelected(path: string) {
    Selected(path, ".tsx", IgnoredDirs, IgnoredEndings)
  }

  predicate JsxSelected(path: string) {
    Selected(path, ".jsx", IgnoredDirs, IgnoredEndings)
  }

  /** Every `.tsx` file the walk keeps, then every `.jsx` file. */
  function Candidates(listed: seq<string>): (files: seq<string>)
    ensures forall f :: f in files <==> f in listed && (TsxSelected(f) || JsxSelected(f))
  {
    Filter(listed, TsxSelected) + Filter(listed, JsxSelected)
  }

  // ---------------------------------------------------------------------
  // isReactComponent
  // ---------------------------------------------------------------------

  /** `\s*\(?\s*<` at the start of `t`. */
  predicate MarkupFirst(t: string) {
    var u := t[LeadingSpaceCount(t)..];
    && |u| > 0
    && (u[0] == '<'
        || (u[0] == '(' && var m := LeadingSpaceCount(u[1..]); m < |u| - 1 && u[1..][m] == '<'))
  }

  /** `<[A-Z]` at index `i`. */
  predicate UpperTagAt(s: string, i: nat) {
    i + 1 < |s| && s[i] == '<' && 'A' <= s[i + 1] <= 'Z'
  }

  /** `kw` at index `i`, followed by `\s*\(?\s*<`. */
  predicate MarkupAfterAt(s: string, kw: string, i: nat) {
    OccursAt(s, kw, i) && MarkupFirst(s[i + |kw|..])
  }

  /** One of the three markup patterns matches at index `i`. */
  predicate JsxAt(s: string, i: nat) {
    UpperTagAt(s, i) || MarkupAfterAt(s, "return", i) || MarkupAfterAt(s, "=>", i)
  }

  /** Some index below `n` starts a markup match. */
  function JsxBelow(s: string, n: nat): (b: bool)
    ensures b <==> exists i: nat :: i < n && JsxAt(s, i)
  {
    if n == 0 then false else JsxAt(s, n - 1) || JsxBelow(s, n - 1)
  }

  /** `hasJSXReturn`: a tag starting with a capital, or `return` or `=>`
      followed by markup, anywhere in the text. */
  predicate HasJsx(s: string) {
    JsxBelow(s, |s|)
  }

  /** The remaining patterns of `isReactComponent`, left as tests on the
      text: a React import, a function component and a class component. */
  datatype Detectors = Detectors(
    reactImport: string -> bool,
    functionComponent: string -> bool,
    classComponent: string -> bool)

  /** `isReactComponent(content)`. */
  predicate IsReactComponent(d: Detectors, content: string)
    ensures HasJsx(content) ==> IsReactComponent(d, content)
    ensures !HasJsx(content) && !d.reactImport(content) ==> !IsReactComponent(d, content)
  {
    && (d.reactImport(content) || HasJsx(content))
    && (d.functionComponent(content) || d.classComponent(content) || HasJsx(content))
  }

  /** Markup alone decides; without it both an import and a function or
      class component are needed. */
  lemma ReactComponentIff(d: Detectors, content: string)
    ensures IsReactComponent(d, content)
            <==> HasJsx(content)
                 || (d.reactImport(content) && (d.functionComponent(content) || d.classComponent(content)))
  {
  }

  /** A capitalised tag makes a file a component whatever the detectors
      say. */
  lemma UpperTagSuffices(d: Detectors, content: string, i: nat)
    requires UpperTagAt(content, i)
    ensures IsReactComponent(d, content)
  {
    assert JsxAt(content, i);
  }

  /** The capital-tag test also fires on TypeScript generics: any text with
      `Array<String>` counts as a component, even with no React import and
      no component definition. */
  lemma GenericTypeCounts(d: Detectors, content: string, i: nat)
    requires OccursAt(content, "Array<String>", i)
    ensures IsReactComponent(d, content)
  {
    assert content[i + 5] == "Array<String>"[5];
    assert content[i + 6] == "Array<String>"[6];
    UpperTagSuffices(d, content, i + 5);
  }

  /** `return (` and markup after any spacing counts as markup. */
  lemma ReturnParenMarkup(d: Detectors, content: string, i: nat, gap: nat)
    requires OccursAt(content, "return", i)
    requires i + 6 + gap + 1 < |content| && content[i + 6] == '('
    requires AllSpace(content[i + 7..i + 7 + gap]) && content[i + 7 + gap] == '<'
    ensures IsReactComponent(d, content)
  {
    var t := content[i + 6..];
    LeadingSpaceIs(t, 0);
    var u1 := t[1..];
    assert u1[..gap] == content[i + 7..i + 7 + gap];
    LeadingSpaceIs(u1, gap);
    assert MarkupAfterAt(content, "return", i);
    assert JsxAt(content, i);
  }

  /** Without a React import and without markup a file is not a
      component, whatever else it defines. */
  lemma NeedsImportOrMarkup(d: Detectors, content: string)
    requires !d.reactImport(content) && !HasJsx(content)
    ensures !IsReactComponent(d, content)
  {
  }

  // ---------------------------------------------------------------------
  // findReactComponents
  // ---------------------------------------------------------------------

  /** One component found. */
  datatype ReactComponent = ReactComponent(
    name: string, fileName: string, path: string, tsxFile: string,
    fullPath: string, extension: string, isTypeScript: bool)

  /** The component a listed `file` with contents `content` describes, if
      it is one. */
  function Describe(cwd: string, baseDir: string, d: Detectors, file: string, content: string): (r: Option<ReactComponent>)
    requires IsAbsolute(cwd)
    ensures r.Some? <==> IsReactComponent(d, content)
    ensures r.Some? ==> r.value.tsxFile == Join(baseDir, file) && r.value.fullPath == Dirname(r.value.tsxFile)
    ensures r.Some? ==> (r.value.isTypeScript <==> r.value.extension == ".tsx")
  {
    var fullPath := Join(baseDir, file);
    var dir := Dirname(fullPath);
    var extension := Extname(file);
    if IsReactComponent(d, content) then
      Some(ReactComponent(Basename(file, extension), Basename(file, ""), Relative(cwd, baseDir, dir),
                          fullPath, dir, extension, extension == ".tsx"))
    else None
  }

  /** The files in order, each read and described; the first read that
      fails ends the walk with its error. */
  function Gather<T>(files: seq<string>, read: string -> Result<string, string>, describe: (string, string) -> Option<T>)
    : Result<seq<T>, string>
  {
    if |files| == 0 then Ok([])
    else match read(files[0])
      case Err(e) => Err(e)
      case Ok(c) =>
        var here := match describe(files[0], c)
          case None => []
          case Some(x) => [x];
        match Gather(files[1..], read, describe)
        case Err(e) => Err(e)
        case Ok(rest) => Ok(here + rest)
  }

  /** The description of a file once it is read; `None` for a failed read. */
  function AfterRead<T>(read: string -> Result<string, string>, describe: (string, string) -> Option<T>): string -> Option<T> {
    f => match read(f)
      case Ok(c) => describe(f, c)
      case Err(_) => None
  }

  /** Gathering succeeds exactly when every read does, and then it is the
      collection of the descriptions. */
  lemma {:induction false} GatherOk<T>(files: seq<string>, read: string -> Result<string, string>, describe: (string, string) -> Option<T>)
    ensures Gather(files, read, describe).Ok? <==> forall k :: 0 <= k < |files| ==> read(files[k]).Ok?
    ensures Gather(files, read, describe).Ok? ==>
              Gather(files, read, describe).value == Collect(files, AfterRead(read, describe))
    decreases |files|
  {
    if |files| > 0 {
      GatherOk(files[1..], read, describe);
      assert forall k :: 1 <= k < |files| ==> files[k] == files[1..][k - 1];
    }
  }

  /** A failed gathering reports the error of the first file that cannot be
      read. */
  lemma {:induction false} GatherErr<T>(files: seq<string>, read: string -> Result<string, string>, describe: (string, string) -> Option<T>)
    requires Gather(files, read, describe).Err?
    ensures exists k :: 0 <= k < |files| && read(files[k]) == Err(Gather(files, read, describe).error)
                        && forall j :: 0 <= j < k ==> read(files[j]).Ok?
    decreases |files|
  {
    var e := Gather(files, read, describe).error;
    if read(files[0]).Err? {
      assert read(files[0]) == Err(e);
    } else {
      GatherErr(files[1..], read, describe);
      var k :| 0 <= k < |files[1..]| && read(files[1..][k]) == Err(e) && forall j :: 0 <= j < k ==> read(files[1..][j]).Ok?;
      assert read(files[k + 1]) == Err(e);
      assert forall j :: 1 <= j < k + 1 ==> files[j] == files[1..][j - 1];
    }
  }

  lemma {:induction false} CollectAppend<T>(a: seq<string>, b: seq<string>, describe: string -> Option<T>)
    ensures Collect(a + b, describe) == Collect(a, describe) + Collect(b, describe)
    decreases |a|
  {
    if |a| == 0 {
      assert a + b == b;
    } else {
      var ab := a + b;
      assert ab[0] == a[0] && ab[1..] == a[1..] + b;
      CollectAppend(a[1..], b, describe);
      Regroup(Found(describe(a[0])), Collect(a[1..], describe), Collect(b, describe));
    }
  }

  function ReadAt(baseDir: string, fs: FileSystem): string -> Result<string, string> {
    f => ReadFile(fs, Join(baseDir, f))
  }

  function DescribeWith(cwd: string, baseDir: string, d: Detectors): (string, string) -> Option<ReactComponent>
    requires IsAbsolute(cwd)
  {
    (f, c) => Describe(cwd, baseDir, d, f, c)
  }

  /** `findReactComponents(baseDir)`, with `process.cwd()` = `cwd`: the
      components among the candidates, or the error of the first candidate
      that cannot be read. */
  function FindReactComponents(cwd: string, baseDir: string, d: Detectors, listed: seq<string>, fs: FileSystem)
    : (r: Result<seq<ReactComponent>, string>)
    requires IsAbsolute(cwd)
    ensures r.Ok? <==> forall f :: f in Candidates(listed) ==> Join(baseDir, f) in fs
    ensures r.Ok? ==> forall c :: c in r.value ==> c.tsxFile in fs
  {
    var files := Candidates(listed);
    var describe := DescribeWith(cwd, baseDir, d);
    var found := Gather(files, ReadAt(baseDir, fs), describe);
    GatherReadsAll(files, baseDir, fs, describe);
    assert found.Ok? ==> forall c :: c in found.value ==> c.tsxFile in fs by {
      if found.Ok? {
        forall c | c in found.value
          ensures c.tsxFile in fs
        {
          CollectReadSound(files, baseDir, fs, describe, c);
          var f :| f in files && Join(baseDir, f) in fs && describe(f, fs[Join(baseDir, f)]) == Some(c);
          assert Describe(cwd, baseDir, d, f, fs[Join(baseDir, f)]) == Some(c);
        }
      }
    }
    found
  }

  /** Reading paths joined onto `baseDir` succeeds for every file exactly
      when each joined path exists. */
  lemma GatherReadsAll<T>(files: seq<string>, baseDir: string, fs: FileSystem, describe: (string, string) -> Option<T>)
    ensures Gather(files, ReadAt(baseDir, fs), describe).Ok? <==> forall f :: f in files ==> Join(baseDir, f) in fs
    ensures Gather(files, ReadAt(baseDir, fs), describe).Ok? ==>
              Gather(files, ReadAt(baseDir, fs), describe).value == Collect(files, AfterRead(ReadAt(baseDir, fs), describe))
  {
    var read := ReadAt(baseDir, fs);
    GatherOk(files, read, describe);
    forall k | 0 <= k < |files|
      ensures read(files[k]).Ok? <==> Join(baseDir, files[k]) in fs
    {
    }
    assert forall f :: f in files ==> exists k :: 0 <= k < |files| && files[k] == f;
  }

  /** A failed read of paths joined onto `baseDir` names one that does not
      exist. */
  lemma GatherMissing<T>(files: seq<string>, baseDir: string, fs: FileSystem, describe: (string, string) -> Option<T>)
    requires Gather(files, ReadAt(baseDir, fs), describe).Err?
    ensures exists f :: f in files && Join(baseDir, f) !in fs
                        && Gather(files, ReadAt(baseDir, fs), describe).error == NoSuchFile(Join(baseDir, f))
  {
    var read := ReadAt(baseDir, fs);
    GatherErr(files, read, describe);
    var k :| 0 <= k < |files| && read(files[k]) == Err(Gather(files, read, describe).error);
    assert files[k] in files;
  }

  /** The walk succeeds exactly when every candidate can be read, and
      then holds the components of the `.tsx` candidates followed by those
      of the `.jsx` candidates. */
  lemma FindReactComponentsOk(cwd: string, baseDir: string, d: Detectors, listed: seq<string>, fs: FileSystem)
    requires IsAbsolute(cwd)
    ensures var r := FindReactComponents(cwd, baseDir, d, listed, fs);
            r.Ok? <==> forall f :: f in Candidates(listed) ==> Join(baseDir, f) in fs
    ensures var r := FindReactComponents(cwd, baseDir, d, listed, fs);
            var describe := AfterRead(ReadAt(baseDir, fs), DescribeWith(cwd, baseDir, d));
            r.Ok? ==> r.value == Collect(Filter(listed, TsxSelected), describe) + Collect(Filter(listed, JsxSelected), describe)
  {
    GatherReadsAll(Candidates(listed), baseDir, fs, DescribeWith(cwd, baseDir, d));
    CollectAppend(Filter(listed, TsxSelected), Filter(listed, JsxSelected), AfterRead(ReadAt(baseDir, fs), DescribeWith(cwd, baseDir, d)));
  }

  /** A failed walk reports that some candidate does not exist. */
  lemma FindReactComponentsErr(cwd: string, baseDir: string, d: Detectors, listed: seq<string>, fs: FileSystem)
    requires IsAbsolute(cwd)
    ensures var r := FindReactComponents(cwd, baseDir, d, listed, fs);
            r.Err? ==> exists f :: f in Candidates(listed) && Join(baseDir, f) !in fs && r.error == NoSuchFile(Join(baseDir, f))
  {
    if FindReactComponents(cwd, baseDir, d, listed, fs).Err? {
      GatherMissing(Candidates(listed), baseDir, fs, DescribeWith(cwd, baseDir, d));
    }
  }

  lemma AfterReadAt<T>(baseDir: string, fs: FileSystem, describe: (string, string) -> Option<T>, f: string)
    ensures AfterRead(ReadAt(baseDir, fs), describe)(f)
            == if Join(baseDir, f) in fs then describe(f, fs[Join(baseDir, f)]) else None
  {
  }

  /** Among readable files, a result is collected exactly when a file
      describes it from its contents. */
  lemma CollectRead<T>(files: seq<string>, baseDir: string, fs: FileSystem, describe: (string, string) -> Option<T>, c: T)
    ensures c in Collect(files, AfterRead(ReadAt(baseDir, fs), describe))
            <==> exists f :: f in files && Join(baseDir, f) in fs && describe(f, fs[Join(baseDir, f)]) == Some(c)
  {
    CollectReadComplete(files, baseDir, fs, describe, c);
    CollectReadSound(files, baseDir, fs, describe, c);
  }

  lemma CollectReadComplete<T>(files: seq<string>, baseDir: string, fs: FileSystem, describe: (string, string) -> Option<T>, c: T)
    ensures (exists f :: f in files && Join(baseDir, f) in fs && describe(f, fs[Join(baseDir, f)]) == Some(c))
            ==> c in Collect(files, AfterRead(ReadAt(baseDir, fs), describe))
  {
    var after := AfterRead(ReadAt(baseDir, fs), describe);
    if exists f :: f in files && Join(baseDir, f) in fs && describe(f, fs[Join(baseDir, f)]) == Some(c) {
      var f :| f in files && Join(baseDir, f) in fs && describe(f, fs[Join(baseDir, f)]) == Some(c);
      var k :| 0 <= k < |files| && files[k] == f;
      AfterReadAt(baseDir, fs, describe, f);
      CollectMembers(files, after, c);
    }
  }

  lemma CollectReadSound<T>(files: seq<string>, baseDir: string, fs: FileSystem, describe: (string, string) -> Option<T>, c: T)
    ensures c in Collect(files, AfterRead(ReadAt(baseDir, fs), describe))
            ==> exists f :: f in files && Join(baseDir, f) in fs && describe(f, fs[Join(baseDir, f)]) == Some(c)
  {
    var after := AfterRead(ReadAt(baseDir, fs), describe);
    if c in Collect(files, after) {
      CollectMembers(files, after, c);
      var k :| 0 <= k < |files| && after(files[k]) == Some(c);
      AfterReadAt(baseDir, fs, describe, files[k]);
      assert files[k] in files;
    }
  }

  /** A component is found exactly when a readable candidate describes it. */
  lemma FoundComponents(cwd: string, baseDir: string, d: Detectors, listed: seq<string>, fs: FileSystem, c: ReactComponent)
    requires IsAbsolute(cwd)
    requires FindReactComponents(cwd, baseDir, d, listed, fs).Ok?
    ensures c in FindReactComponents(cwd, baseDir, d, listed, fs).value
            <==> exists f :: f in Candidates(listed) && Join(baseDir, f) in fs
                             && Describe(cwd, baseDir, d, f, fs[Join(baseDir, f)]) == Some(c)
  {
    GatherReadsAll(Candidates(listed), baseDir, fs, DescribeWith(cwd, baseDir, d));
    CollectRead(Candidates(listed), baseDir, fs, DescribeWith(cwd, baseDir, d), c);
  }

  /** The extension of a file named `name` + `ext`, for a dot-free
      non-empty `name` and an extension with one leading dot. */
  lemma ExtnameOfStem(p: string, name: string, ext: string)
    requires LastPiece(p) == name + ext && name != "" && '.' !in name
    requires |ext| > 1 && ext[0] == '.' && '.' !in ext[1..]
    ensures Extname(p) == ext
  {
    StemDot(name, ext);
  }

  /** The dot that starts the extension is the last one. */
  lemma StemDot(name: string, ext: string)
    requires |ext| > 1 && ext[0] == '.' && '.' !in ext[1..]
    ensures LastDot(name + ext) == |name| && (name + ext)[|name|..] == ext
  {
    var b := name + ext;
    forall i | |name| < i < |b|
      ensures b[i] != '.'
    {
      assert b[i] == ext[1..][i - |name| - 1];
    }
    LastDotIs(b, |name|);
  }

  /** A dot with no dot after it is the last dot. */
  lemma {:induction false} LastDotIs(s: string, k: nat)
    requires k < |s| && s[k] == '.'
    requires forall i :: k < i < |s| ==> s[i] != '.'
    ensures LastDot(s) == k
    decreases |s|
  {
    if k < |s| - 1 {
      var t := s[..|s| - 1];
      assert t[k] == '.';
      LastDotIs(t, k);
    }
  }

  /** A component file `sub/name.tsx` or `sub/name.jsx` under a canonical
      base directory is described by `name`, its file name, the relative
      directory `sub`, its extension, and whether that is `.tsx`. */
  lemma ComponentInSubdirectory(cwd: string, baseDir: string, d: Detectors, sub: string, name: string, ext: string, content: string)
    requires IsAbsolute(cwd) && Canonical(baseDir) && ProperSegment(sub)
    requires ext == ".tsx" || ext == ".jsx"
    requires name != "" && '.' !in name && '/' !in name
    requires IsReactComponent(d, content)
    ensures var dir := Join(baseDir, sub);
            var r := Describe(cwd, baseDir, d, sub + "/" + name + ext, content);
            && r.Some? && r.value.name == name && r.value.fileName == name + ext
            && r.value.path == sub && r.value.fullPath == dir
            && r.value.tsxFile == Join(dir, name + ext)
            && r.value.extension == ext && (r.value.isTypeScript <==> ext == ".tsx")
  {
    var leaf := name + ext;
    var file := sub + "/" + leaf;
    assert sub + "/" + name + ext == file;
    assert '.' !in ext[1..];
    assert ProperSegment(leaf) by {
      assert leaf[|name|] == '.';
    }
    var dir := Join(baseDir, sub);
    JoinTwoDeep(baseDir, sub, leaf);
    ChildPathParts(dir, leaf);
    LastPieceOfChild(sub, leaf);
    ExtnameOfStem(file, name, ext);
    BasenameOfStem(file, name, ext);
    LastPieceIsBasename(file);
    RelativeToChild(cwd, baseDir, sub);
  }

  lemma LastPieceIsBasename(p: string)
    ensures Basename(p, "") == LastPiece(p)
  {
  }
}
