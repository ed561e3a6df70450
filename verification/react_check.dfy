/** `validateComponent` and `validateComponents`: the checks run on the
    React Native files the converter produced. File contents and the
    existence of the sibling styles file are inputs. */
module ReactCheck {
  import opened Wrappers
  import opened Strings
  import opened Paths
  import opened Scan
  import opened Validation

  /** The issues `validateComponent` reports. */
  datatype Issue =
    | MissingReactImport | MissingExport | StyleNotFound | NoStyleSheet | StylesNoExport
    | SyntaxErrors | ReadFailed(message: string) | NotTypedFC | StyleNotImported

  /** The text the source pushes for each issue. */
  function Message(issue: Issue): string {
    match issue
    case MissingReactImport => "Missing React import"
    case MissingExport => "Missing export statement"
    case StyleNotFound => "Style file referenced but not found"
    case NoStyleSheet => "Styles file missing StyleSheet.create"
    case StylesNoExport => "Styles file missing export"
    case SyntaxErrors => "Potential syntax errors detected"
    case ReadFailed(m) => ReadFailure(m)
    case NotTypedFC => "Component not typed as React.FC"
    case StyleNotImported => "Style file exists but not imported"
  }

  /** The errors about the component file itself, in check order. */
  const CoreOrder: seq<Issue> := [MissingReactImport, MissingExport, StyleNotFound]

  /** The errors about the styles file, in check order. */
  const StylesOrder: seq<Issue> := [NoStyleSheet, StylesNoExport]

  /** Every error, in the order the checks add them. */
  const ErrorOrder: seq<Issue> := CoreOrder + StylesOrder + [SyntaxErrors]

  /** The warnings in the order the checks add them. */
  const WarningOrder: seq<Issue> := [NotTypedFC, StyleNotImported]

  // ---------------------------------------------------------------------
  // The export pattern
  // ---------------------------------------------------------------------

  /** `/export\s+(default|const)/` matches at `i`, the white space running
      up to `j`. */
  predicate ExportAt(s: string, i: int, j: int) {
    && OccursAt(s, "export", i)
    && i + 6 < j <= |s|
    && AllSpace(s[i + 6..j])
    && (OccursAt(s, "default", j) || OccursAt(s, "const", j))
  }

  /** `/export\s+(default|const)/.test(s)`. */
  ghost predicate ExportMatch(s: string) {
    exists i, j :: ExportAt(s, i, j)
  }

  /** The pattern tried at one position: skip the white space after
      `export`, then look for a keyword. */
  function ExportHere(s: string, i: nat): (r: bool)
    ensures r <==> exists j :: ExportAt(s, i, j)
  {
    if !OccursAt(s, "export", i) then false
    else
      var rest := s[i + 6..];
      var n := LeadingSpaceCount(rest);
      assert rest[..n] == s[i + 6..i + 6 + n];
      var r := n > 0 && (OccursAt(s, "default", i + 6 + n) || OccursAt(s, "const", i + 6 + n));
      assert r ==> ExportAt(s, i, i + 6 + n);
      assert forall j :: ExportAt(s, i, j) ==> r by {
        forall j | ExportAt(s, i, j)
          ensures r
        {
          assert s[j] == 'd' || s[j] == 'c';
          assert rest[..j - i - 6] == s[i + 6..j];
          LeadingSpaceIs(rest, j - i - 6);
        }
      }
      r
  }

  /** The pattern tried at every position from `from` on. */
  function ExportFrom(s: string, from: nat): (r: bool)
    ensures r <==> exists i, j :: from <= i && ExportAt(s, i, j)
    decreases |s| - from
  {
    if from >= |s| then false
    else ExportHere(s, from) || ExportFrom(s, from + 1)
  }

  /** The regular-expression test, decided by a scan. */
  function HasExport(s: string): (r: bool)
    ensures r <==> ExportMatch(s)
  {
    ExportFrom(s, 0)
  }

  // ---------------------------------------------------------------------
  // One component
  // ---------------------------------------------------------------------

  predicate NoReactImport(c: string) {
    !Contains(c, "import React") && !Contains(c, "from 'react'")
  }

  predicate NotTyped(c: string) {
    !Contains(c, "React.FC") && !Contains(c, ": FC")
  }

  /** What the checks found, before any issue is reported. `styles` is
      `None` when there is no styles file, and holds the read error when
      reading it throws. */
  datatype Findings = Findings(
    noReactImport: bool, noExport: bool, notTyped: bool, styleReference: bool,
    styles: Option<Result<StylesFindings, string>>, unbalanced: bool)

  /** What the checks found in a readable styles file. */
  datatype StylesFindings = StylesFindings(noStyleSheet: bool, noExport: bool)

  /** The findings for a readable component file. */
  function Inspect(c: string, styles: Option<Result<string, string>>): (f: Findings)
    ensures f.noReactImport == NoReactImport(c) && f.notTyped == NotTyped(c)
    ensures f.noExport <==> !ExportMatch(c)
    ensures f.styleReference == Contains(c, ".styles") && f.unbalanced == !Balanced(c)
    ensures f.styles.None? <==> styles.None?
    ensures styles.Some? && styles.value.Err? ==> f.styles == Some(Err(styles.value.error))
    ensures styles.Some? && styles.value.Ok? ==>
              var sc := styles.value.value;
              f.styles == Some(Ok(StylesFindings(!Contains(sc, "StyleSheet.create"), !ExportMatch(sc))))
  {
    var sf := match styles
      case None => None
      case Some(Err(m)) => Some(Err(m))
      case Some(Ok(sc)) => Some(Ok(StylesFindings(!Contains(sc, "StyleSheet.create"), !HasExport(sc))));
    Findings(NoReactImport(c), !HasExport(c), NotTyped(c), Contains(c, ".styles"), sf, !Balanced(c))
  }

  /** The flags of the styles-file checks, in `StylesOrder`. */
  function StylesFlags(f: Findings): seq<bool> {
    if f.styles.Some? && f.styles.value.Ok? then [f.styles.value.value.noStyleSheet, f.styles.value.value.noExport]
    else [false, false]
  }

  function CoreFlags(f: Findings): seq<bool> {
    [f.noReactImport, f.noExport, f.styleReference && f.styles.None?]
  }

  function WarningFlags(f: Findings): seq<bool> {
    [f.notTyped, !f.styleReference && f.styles.Some?]
  }

  /** The report for a readable component file: the issues of the checks
      that fired, in check order; a styles file that cannot be read ends the
      checks with its read error. */
  function Decide(f: Findings): (r: Report<Issue>)
    ensures f.styles.Some? && f.styles.value.Err? ==>
              |r.errors| > 0 && r.errors[|r.errors| - 1] == ReadFailed(f.styles.value.error)
  {
    var core := Picks(CoreOrder, CoreFlags(f));
    var warnings := Picks(WarningOrder, WarningFlags(f));
    if f.styles.Some? && f.styles.value.Err? then
      Report(core + [ReadFailed(f.styles.value.error)], warnings)
    else
      Report(core + Picks(StylesOrder, StylesFlags(f)) + Picks([SyntaxErrors], [f.unbalanced]), warnings)
  }

  /** `validateComponent`: `content` is the read of the component file and
      `styles` the read of its styles file, `None` when that file does not
      exist. A read that throws ends the checks with one error naming it. */
  function ValidateComponent(content: Result<string, string>, styles: Option<Result<string, string>>): (r: Report<Issue>)
    ensures content.Err? ==> r == Report([ReadFailed(content.error)], [])
    ensures content.Ok? && styles.Some? && styles.value.Err? ==>
              |r.errors| > 0 && r.errors[|r.errors| - 1] == ReadFailed(styles.value.error)
  {
    match content
    case Err(m) => Report([ReadFailed(m)], [])
    case Ok(c) => Decide(Inspect(c, styles))
  }

  // ---------------------------------------------------------------------
  // The rules, over the findings
  // ---------------------------------------------------------------------

  /** An error about the component file itself is reported exactly when its
      check fired. */
  lemma CoreErrorIn(f: Findings, k: nat)
    requires k < 3
    ensures CoreOrder[k] in Decide(f).errors <==> CoreFlags(f)[k]
  {
    PicksHas(CoreOrder, CoreFlags(f), k);
    var x := CoreOrder[k];
    if !(f.styles.Some? && f.styles.value.Err?) {
      PicksWithin(StylesOrder, StylesFlags(f), x);
    }
  }

  lemma WarningIn(f: Findings, k: nat)
    requires k < 2
    ensures WarningOrder[k] in Decide(f).warnings <==> WarningFlags(f)[k]
  {
    PicksHas(WarningOrder, WarningFlags(f), k);
  }

  /** A styles-file error is reported only for a readable styles file, and
      then exactly when its check fired. */
  lemma StylesErrorIn(f: Findings, k: nat)
    requires k < 2
    ensures StylesOrder[k] in Decide(f).errors <==> f.styles.Some? && f.styles.value.Ok? && StylesFlags(f)[k]
  {
    var x := StylesOrder[k];
    PicksWithin(CoreOrder, CoreFlags(f), x);
    if !(f.styles.Some? && f.styles.value.Err?) {
      PicksHas(StylesOrder, StylesFlags(f), k);
    }
  }

  /** The syntax error is reported exactly when the brackets are unbalanced
      and no styles read failed before it. */
  lemma SyntaxErrorIn(f: Findings)
    ensures SyntaxErrors in Decide(f).errors <==> f.unbalanced && !(f.styles.Some? && f.styles.value.Err?)
  {
    PicksWithin(CoreOrder, CoreFlags(f), SyntaxErrors);
    PicksWithin(StylesOrder, StylesFlags(f), SyntaxErrors);
  }

  /** Errors and warnings come in check order, each at most once. */
  lemma ReportOrder(f: Findings)
    ensures !(f.styles.Some? && f.styles.value.Err?) ==> Subsequence(Decide(f).errors, ErrorOrder)
    ensures Subsequence(Decide(f).warnings, WarningOrder)
  {
    var core := Picks(CoreOrder, CoreFlags(f));
    var sp := Picks(StylesOrder, StylesFlags(f));
    var sy := Picks([SyntaxErrors], [f.unbalanced]);
    PicksOrdered(CoreOrder, CoreFlags(f));
    PicksOrdered(StylesOrder, StylesFlags(f));
    PicksOrdered([SyntaxErrors], [f.unbalanced]);
    PicksOrdered(WarningOrder, WarningFlags(f));
    SubsequenceAppend(core, sp, CoreOrder, StylesOrder);
    SubsequenceAppend(core + sp, sy, CoreOrder + StylesOrder, [SyntaxErrors]);
  }

  // ---------------------------------------------------------------------
  // The rules, over the file contents
  // ---------------------------------------------------------------------

  /** "Missing React import" is reported exactly when the component has
      neither `import React` nor `from 'react'`. */
  lemma ReactImportRule(c: string, styles: Option<Result<string, string>>)
    ensures MissingReactImport in ValidateComponent(Ok(c), styles).errors <==> NoReactImport(c)
  {
    CoreErrorIn(Inspect(c, styles), 0);
  }

  /** "Missing export statement" is reported exactly when nothing matches
      the export pattern. */
  lemma ExportRule(c: string, styles: Option<Result<string, string>>)
    ensures MissingExport in ValidateComponent(Ok(c), styles).errors <==> !ExportMatch(c)
  {
    CoreErrorIn(Inspect(c, styles), 1);
  }

  /** "not typed as React.FC" is warned exactly when neither `React.FC` nor
      `: FC` occurs. */
  lemma TypingRule(c: string, styles: Option<Result<string, string>>)
    ensures NotTypedFC in ValidateComponent(Ok(c), styles).warnings <==> NotTyped(c)
  {
    WarningIn(Inspect(c, styles), 0);
  }

  /** The styles cross-check: a `.styles` reference without a styles file is
      an error, a styles file without a reference is a warning. */
  lemma StylesCrossCheck(c: string, styles: Option<Result<string, string>>)
    ensures StyleNotFound in ValidateComponent(Ok(c), styles).errors <==> Contains(c, ".styles") && styles.None?
    ensures StyleNotImported in ValidateComponent(Ok(c), styles).warnings <==> !Contains(c, ".styles") && styles.Some?
  {
    CoreErrorIn(Inspect(c, styles), 2);
    WarningIn(Inspect(c, styles), 1);
  }

  /** The styles-file checks run only on an existing, readable styles file,
      and then each reports exactly when its text is missing. */
  lemma StylesFileRules(c: string, styles: Option<Result<string, string>>)
    ensures var r := ValidateComponent(Ok(c), styles);
            NoStyleSheet in r.errors <==> styles.Some? && styles.value.Ok? && !Contains(styles.value.value, "StyleSheet.create")
    ensures var r := ValidateComponent(Ok(c), styles);
            StylesNoExport in r.errors <==> styles.Some? && styles.value.Ok? && !ExportMatch(styles.value.value)
  {
    StylesErrorIn(Inspect(c, styles), 0);
    StylesErrorIn(Inspect(c, styles), 1);
  }

  /** Bracket balance is checked last; a styles file that cannot be read
      ends the checks before it. */
  lemma SyntaxRule(c: string, styles: Option<Result<string, string>>)
    ensures var r := ValidateComponent(Ok(c), styles);
            SyntaxErrors in r.errors <==> !Balanced(c) && !(styles.Some? && styles.value.Err?)
  {
    SyntaxErrorIn(Inspect(c, styles));
  }

  // ---------------------------------------------------------------------
  // Every converted component
  // ---------------------------------------------------------------------

  /** The styles file checked next to a component file: same directory,
      the `.tsx` ending replaced by `.styles.ts`. */
  function StylesPath(filePath: string): string {
    Join(Dirname(filePath), Basename(filePath, ".tsx") + ".styles.ts")
  }

  /** `validateComponent(filePath)` against a file system. */
  function ValidateFile(fs: FileSystem, filePath: string): (r: Report<Issue>)
    ensures filePath !in fs ==> r == Report([ReadFailed(NoSuchFile(filePath))], [])
    ensures filePath in fs ==> forall i :: i in r.errors ==> !i.ReadFailed?
  {
    var styles := StylesPath(filePath);
    var content := ReadFile(fs, filePath);
    var stylesRead := if styles in fs then Some(ReadFile(fs, styles)) else None;
    if content.Ok? then
      NoReadFailure(Inspect(content.value, stylesRead));
      ValidateComponent(content, stylesRead)
    else
      ValidateComponent(content, stylesRead)
  }

  /** When the styles file, if any, was read, no read failure is reported. */
  lemma NoReadFailure(f: Findings)
    requires !(f.styles.Some? && f.styles.value.Err?)
    ensures forall i :: i in Decide(f).errors ==> !i.ReadFailed?
  {
    var core := Picks(CoreOrder, CoreFlags(f));
    var styles := Picks(StylesOrder, StylesFlags(f));
    var syntax := Picks([SyntaxErrors], [f.unbalanced]);
    assert Decide(f).errors == core + styles + syntax;
    forall i: Issue | i in core + styles + syntax
      ensures !i.ReadFailed?
    {
      assert i in core || i in styles || i in syntax;
    }
  }

  /** For `name.tsx` in a canonical directory the styles file is
      `name.styles.ts` in the same directory. */
  lemma StylesBesideComponent(dir: string, name: string)
    requires Canonical(dir) && ProperSegment(name + ".tsx") && name != ""
    ensures StylesPath(Join(dir, name + ".tsx")) == Join(dir, name + ".styles.ts")
  {
    var file := name + ".tsx";
    var p := Join(dir, file);
    ChildPathParts(dir, file);
    JoinChild(dir, file);
    assert p[0] == '/';
    assert p != ".tsx";
    assert EndsWith(file, ".tsx");
    assert file[..|file| - 4] == name;
  }

  /** The `.tsx` files the validator looks at. */
  predicate TsxSelected(path: string) {
    Selected(path, ".tsx", {"node_modules", "dist"}, [])
  }

  /** The reports of the given files, each validated on its own. */
  function Results(baseDir: string, files: seq<string>, fs: FileSystem): (r: seq<(string, Report<Issue>)>)
    ensures |r| == |files|
    ensures forall i :: 0 <= i < |files| ==> r[i].0 == files[i]
  {
    seq(|files|, i requires 0 <= i < |files| => (files[i], ValidateFile(fs, Join(baseDir, files[i]))))
  }

  /** Each file is validated independently: the reports for two lists of
      files are the reports for each, one after the other. */
  lemma ResultsAppend(baseDir: string, a: seq<string>, b: seq<string>, fs: FileSystem)
    ensures Results(baseDir, a + b, fs) == Results(baseDir, a, fs) + Results(baseDir, b, fs)
  {
  }

  /** The names of the reported files. */
  function ReportedFiles(results: seq<(string, Report<Issue>)>): (names: seq<string>)
    ensures |names| == |results|
  {
    seq(|results|, i requires 0 <= i < |results| => results[i].0)
  }

  /** `validateComponents(baseDir)`: `listed` is what the walk of `baseDir`
      produces; the selected `.tsx` files are validated one by one, and with
      none there are no results. */
  function ValidateComponents(baseDir: string, listed: seq<string>, fs: FileSystem): (r: Option<seq<(string, Report<Issue>)>>)
    ensures r.None? <==> |Filter(listed, TsxSelected)| == 0
  {
    var files := Filter(listed, TsxSelected);
    if |files| == 0 then None else Some(Results(baseDir, files, fs))
  }

  /** There are no results exactly when no `.tsx` file lies outside
      `node_modules` and `dist`; otherwise every such file has a report,
      nothing else has one, each report is that file's own validation, and
      the reports follow the listing order. */
  lemma ValidateComponentsCovers(baseDir: string, listed: seq<string>, fs: FileSystem)
    ensures var r := ValidateComponents(baseDir, listed, fs);
            r.None? <==> forall p :: p in listed ==> !TsxSelected(p)
    ensures var r := ValidateComponents(baseDir, listed, fs);
            r.Some? ==>
              && (forall p :: p in ReportedFiles(r.value) <==> p in listed && TsxSelected(p))
              && Subsequence(ReportedFiles(r.value), listed)
              && forall i :: 0 <= i < |r.value| ==> r.value[i].1 == ValidateFile(fs, Join(baseDir, r.value[i].0))
  {
    var files := Filter(listed, TsxSelected);
    if |files| > 0 {
      assert files[0] in files;
      var r := Results(baseDir, files, fs);
      assert ReportedFiles(r) == files;
    }
  }
}
