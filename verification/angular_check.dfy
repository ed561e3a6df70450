/** `validateAngularComponent` and `validateAngularComponents`: the checks
    run on the Angular files the converter produced. File contents and the
    existence of the sibling template file are inputs. */
module AngularCheck {
  import opened Wrappers
  import opened Strings
  import opened Paths
  import opened Scan
  import opened Validation

  /** The issues `validateAngularComponent` reports. */
  datatype Issue =
    | NoComponentDecorator | NotStandalone | NoSelector | OldControlFlow
    | TemplateNotFound | TemplateOldSyntax | NoClassExport | AnyType | SyntaxErrors
    | ReadFailed(message: string)
    | ConstructorInjection | NoSignals | OldInput | OldOutput

  /** The text the source pushes for each issue. */
  function Message(issue: Issue): string {
    match issue
    case NoComponentDecorator => "Missing @Component decorator"
    case NotStandalone => "Component is not standalone (Angular 19+ requirement)"
    case NoSelector => "Missing component selector"
    case OldControlFlow => "Using old control flow syntax (*ngIf, *ngFor). Use @if, @for, @switch instead"
    case TemplateNotFound => "Template file referenced but not found"
    case TemplateOldSyntax => "Template uses old control flow syntax. Use @if, @for, @switch"
    case NoClassExport => "Missing component class export"
    case AnyType => "Using \"any\" type - TypeScript should be strictly typed"
    case SyntaxErrors => "Potential syntax errors detected (unbalanced brackets)"
    case ReadFailed(m) => ReadFailure(m)
    case ConstructorInjection => "Using constructor injection instead of inject() function"
    case NoSignals => "Not using signals for state management (Angular 19+ best practice)"
    case OldInput => "Using old @Input() decorator instead of input() function"
    case OldOutput => "Using old @Output() decorator instead of output() function"
  }

  /** The errors checked before the template, in check order. */
  const HeadOrder: seq<Issue> := [NoComponentDecorator, NotStandalone, NoSelector, OldControlFlow]

  /** The template errors, in check order. */
  const TemplateOrder: seq<Issue> := [TemplateNotFound, TemplateOldSyntax]

  /** The errors checked after the template, before the bracket count. */
  const TailOrder: seq<Issue> := [NoClassExport, AnyType]

  /** Every error, in the order the checks add them. */
  const ErrorOrder: seq<Issue> := HeadOrder + TemplateOrder + TailOrder + [SyntaxErrors]

  /** The warnings, in the order the checks add them. */
  const WarningOrder: seq<Issue> := [ConstructorInjection, NoSignals, OldInput, OldOutput]

  // ---------------------------------------------------------------------
  // The text tests
  // ---------------------------------------------------------------------

  /** `*ngIf`, `*ngFor` or `*ngSwitch` occurs anywhere. */
  predicate UsesOldSyntax(s: string) {
    Contains(s, "*ngIf") || Contains(s, "*ngFor") || Contains(s, "*ngSwitch")
  }

  /** `: any`, `<any>` or `any[]` occurs anywhere. */
  predicate UsesAny(c: string) {
    Contains(c, ": any") || Contains(c, "<any>") || Contains(c, "any[]")
  }

  predicate InjectsByConstructor(c: string) {
    Contains(c, "constructor(") && !Contains(c, "inject(")
  }

  predicate LacksSignals(c: string) {
    !Contains(c, "signal(") && !Contains(c, "Signal<")
  }

  predicate UsesOldInput(c: string) {
    Contains(c, "@Input()") && !Contains(c, "input<") && !Contains(c, "input.required<")
  }

  predicate UsesOldOutput(c: string) {
    Contains(c, "@Output()") && !Contains(c, "output<")
  }

  // ---------------------------------------------------------------------
  // One component
  // ---------------------------------------------------------------------

  /** What the checks found. `template` is `None` when the template file
      does not exist, the read error when reading it throws, and otherwise
      whether the template uses the old control flow. It only matters when
      the component names a `templateUrl`. */
  datatype Findings = Findings(
    noComponent: bool, notStandalone: bool, noSelector: bool, oldSyntax: bool,
    templateUrl: bool, template: Option<Result<bool, string>>,
    noClassExport: bool, usesAny: bool,
    constructorInjection: bool, noSignals: bool, oldInput: bool, oldOutput: bool,
    unbalanced: bool)

  /** The findings for a readable component file and the read of its
      template file. */
  function Inspect(c: string, template: Option<Result<string, string>>): (f: Findings)
    ensures f.noComponent == !Contains(c, "@Component") && f.notStandalone == !Contains(c, "standalone: true")
    ensures f.noSelector == !Contains(c, "selector:") && f.oldSyntax == UsesOldSyntax(c)
    ensures f.templateUrl == Contains(c, "templateUrl:")
    ensures f.template.None? <==> template.None?
    ensures template.Some? && template.value.Err? ==> f.template == Some(Err(template.value.error))
    ensures template.Some? && template.value.Ok? ==> f.template == Some(Ok(UsesOldSyntax(template.value.value)))
    ensures f.noClassExport == !Contains(c, "export class") && f.usesAny == UsesAny(c)
    ensures f.constructorInjection == InjectsByConstructor(c) && f.noSignals == LacksSignals(c)
    ensures f.oldInput == UsesOldInput(c) && f.oldOutput == UsesOldOutput(c)
    ensures f.unbalanced == !Balanced(c)
  {
    var t := match template
      case None => None
      case Some(Err(m)) => Some(Err(m))
      case Some(Ok(tc)) => Some(Ok(UsesOldSyntax(tc)));
    Findings(!Contains(c, "@Component"), !Contains(c, "standalone: true"), !Contains(c, "selector:"),
             UsesOldSyntax(c), Contains(c, "templateUrl:"), t,
             !Contains(c, "export class"), UsesAny(c),
             InjectsByConstructor(c), LacksSignals(c), UsesOldInput(c), UsesOldOutput(c), !Balanced(c))
  }

  /** The template is named but cannot be read: the checks end there. */
  predicate TemplateReadFails(f: Findings) {
    f.templateUrl && f.template.Some? && f.template.value.Err?
  }

  function HeadFlags(f: Findings): seq<bool> {
    [f.noComponent, f.notStandalone, f.noSelector, f.oldSyntax]
  }

  function TemplateFlags(f: Findings): seq<bool> {
    [f.templateUrl && f.template.None?,
     f.templateUrl && f.template.Some? && f.template.value.Ok? && f.template.value.value]
  }

  function TailFlags(f: Findings): seq<bool> {
    [f.noClassExport, f.usesAny]
  }

  function WarningFlags(f: Findings): seq<bool> {
    [f.constructorInjection, f.noSignals, f.oldInput, f.oldOutput]
  }

  /** The report for a readable component file: the issues of the checks
      that fired, in check order. */
  function Decide(f: Findings): (r: Report<Issue>)
    ensures TemplateReadFails(f) ==>
              && |r.errors| > 0 && r.errors[|r.errors| - 1] == ReadFailed(f.template.value.error)
              && r.warnings == []
  {
    var head := Picks(HeadOrder, HeadFlags(f));
    if TemplateReadFails(f) then
      Report(head + [ReadFailed(f.template.value.error)], [])
    else
      Report(head + Picks(TemplateOrder, TemplateFlags(f)) + Picks(TailOrder, TailFlags(f))
               + Picks([SyntaxErrors], [f.unbalanced]),
             Picks(WarningOrder, WarningFlags(f)))
  }

  /** `validateAngularComponent`: `content` is the read of the component
      file and `template` the read of its template file, `None` when that
      file does not exist. A read that throws ends the checks with one error
      naming it. */
  function ValidateAngularComponent(content: Result<string, string>, template: Option<Result<string, string>>): (r: Report<Issue>)
    ensures content.Err? ==> r == Report([ReadFailed(content.error)], [])
  {
    match content
    case Err(m) => Report([ReadFailed(m)], [])
    case Ok(c) => Decide(Inspect(c, template))
  }

  // ---------------------------------------------------------------------
  // The rules, over the findings
  // ---------------------------------------------------------------------

  lemma HeadErrorIn(f: Findings, k: nat)
    requires k < 4
    ensures HeadOrder[k] in Decide(f).errors <==> HeadFlags(f)[k]
  {
    var x := HeadOrder[k];
    var head := Picks(HeadOrder, HeadFlags(f));
    assert x in head <==> HeadFlags(f)[k] by {
      PicksHas(HeadOrder, HeadFlags(f), k);
    }
    if !TemplateReadFails(f) {
      var tm := Picks(TemplateOrder, TemplateFlags(f));
      var tl := Picks(TailOrder, TailFlags(f));
      var sy := Picks([SyntaxErrors], [f.unbalanced]);
      assert x !in tm by {
        PicksWithin(TemplateOrder, TemplateFlags(f), x);
      }
      assert x !in tl by {
        PicksWithin(TailOrder, TailFlags(f), x);
      }
      assert x !in sy by {
        PicksWithin([SyntaxErrors], [f.unbalanced], x);
      }
      assert Decide(f).errors == head + tm + tl + sy;
    }
  }

  lemma TemplateErrorIn(f: Findings, k: nat)
    requires k < 2
    ensures TemplateOrder[k] in Decide(f).errors <==> !TemplateReadFails(f) && TemplateFlags(f)[k]
  {
    var x := TemplateOrder[k];
    PicksWithin(HeadOrder, HeadFlags(f), x);
    if !TemplateReadFails(f) {
      PicksHas(TemplateOrder, TemplateFlags(f), k);
      PicksWithin(TailOrder, TailFlags(f), x);
    }
  }

  lemma TailErrorIn(f: Findings, k: nat)
    requires k < 2
    ensures TailOrder[k] in Decide(f).errors <==> !TemplateReadFails(f) && TailFlags(f)[k]
  {
    var x := TailOrder[k];
    PicksWithin(HeadOrder, HeadFlags(f), x);
    if !TemplateReadFails(f) {
      PicksWithin(TemplateOrder, TemplateFlags(f), x);
      PicksHas(TailOrder, TailFlags(f), k);
    }
  }

  lemma SyntaxErrorIn(f: Findings)
    ensures SyntaxErrors in Decide(f).errors <==> !TemplateReadFails(f) && f.unbalanced
  {
    PicksWithin(HeadOrder, HeadFlags(f), SyntaxErrors);
    PicksWithin(TemplateOrder, TemplateFlags(f), SyntaxErrors);
    PicksWithin(TailOrder, TailFlags(f), SyntaxErrors);
  }

  lemma WarningIn(f: Findings, k: nat)
    requires k < 4
    ensures WarningOrder[k] in Decide(f).warnings <==> !TemplateReadFails(f) && WarningFlags(f)[k]
  {
    PicksHas(WarningOrder, WarningFlags(f), k);
  }

  /** Errors and warnings come in check order, each at most once. */
  lemma ReportOrder(f: Findings)
    ensures !TemplateReadFails(f) ==> Subsequence(Decide(f).errors, ErrorOrder)
    ensures Subsequence(Decide(f).warnings, WarningOrder)
  {
    var head := Picks(HeadOrder, HeadFlags(f));
    var tm := Picks(TemplateOrder, TemplateFlags(f));
    var tl := Picks(TailOrder, TailFlags(f));
    var sy := Picks([SyntaxErrors], [f.unbalanced]);
    PicksOrdered(HeadOrder, HeadFlags(f));
    PicksOrdered(TemplateOrder, TemplateFlags(f));
    PicksOrdered(TailOrder, TailFlags(f));
    PicksOrdered([SyntaxErrors], [f.unbalanced]);
    PicksOrdered(WarningOrder, WarningFlags(f));
    SubsequenceAppend(head, tm, HeadOrder, TemplateOrder);
    SubsequenceAppend(head + tm, tl, HeadOrder + TemplateOrder, TailOrder);
    SubsequenceAppend(head + tm + tl, sy, HeadOrder + TemplateOrder + TailOrder, [SyntaxErrors]);
    if !TemplateReadFails(f) {
      assert Decide(f).warnings == Picks(WarningOrder, WarningFlags(f));
    }
  }

  // ---------------------------------------------------------------------
  // The rules, over the file contents
  // ---------------------------------------------------------------------

  /** A missing `@Component`, `standalone: true` or `selector:` each adds
      its own error, whatever else the file holds. */
  lemma DecoratorRules(c: string, template: Option<Result<string, string>>)
    ensures var r := ValidateAngularComponent(Ok(c), template);
            && (NoComponentDecorator in r.errors <==> !Contains(c, "@Component"))
            && (NotStandalone in r.errors <==> !Contains(c, "standalone: true"))
            && (NoSelector in r.errors <==> !Contains(c, "selector:"))
  {
    HeadIssues(Inspect(c, template));
  }

  /** The first three checks, over the findings. */
  lemma HeadIssues(f: Findings)
    ensures NoComponentDecorator in Decide(f).errors <==> f.noComponent
    ensures NotStandalone in Decide(f).errors <==> f.notStandalone
    ensures NoSelector in Decide(f).errors <==> f.noSelector
  {
    HeadErrorIn(f, 0);
    HeadErrorIn(f, 1);
    HeadErrorIn(f, 2);
  }

  /** Any `*ngIf`, `*ngFor` or `*ngSwitch` in the component adds the
      old-control-flow error, regardless of other content; the modern
      `@if`/`@for`/`@switch` forms play no part in it. */
  lemma OldControlFlowRule(c: string, template: Option<Result<string, string>>)
    ensures OldControlFlow in ValidateAngularComponent(Ok(c), template).errors <==> UsesOldSyntax(c)
  {
    HeadErrorIn(Inspect(c, template), 3);
  }

  /** The template checks run only when `templateUrl:` is present: a missing
      template file is one error. */
  lemma TemplateMissingRule(c: string, template: Option<Result<string, string>>)
    ensures var r := ValidateAngularComponent(Ok(c), template);
            TemplateNotFound in r.errors <==> Contains(c, "templateUrl:") && template.None?
  {
    TemplateErrorIn(Inspect(c, template), 0);
  }

  /** Old control flow inside a named, readable template is an error of its
      own. */
  lemma TemplateSyntaxRule(c: string, template: Option<Result<string, string>>)
    ensures var r := ValidateAngularComponent(Ok(c), template);
            var stale := template.Some? && template.value.Ok? && UsesOldSyntax(template.value.value);
            TemplateOldSyntax in r.errors <==> Contains(c, "templateUrl:") && stale
  {
    TemplateErrorIn(Inspect(c, template), 1);
  }

  /** A named template that cannot be read ends the checks: its read error
      is the last error and there are no warnings. */
  lemma TemplateReadFailure(c: string, m: string)
    requires Contains(c, "templateUrl:")
    ensures var r := ValidateAngularComponent(Ok(c), Some(Err(m)));
            |r.errors| > 0 && r.errors[|r.errors| - 1] == ReadFailed(m) && r.warnings == []
  {
  }

  /** A missing `export class` and a use of `any` each add their own error
      once the template checks have passed. */
  lemma ClassAndTypeRules(c: string, template: Option<Result<string, string>>)
    requires !(Contains(c, "templateUrl:") && template.Some? && template.value.Err?)
    ensures var r := ValidateAngularComponent(Ok(c), template);
            && (NoClassExport in r.errors <==> !Contains(c, "export class"))
            && (AnyType in r.errors <==> UsesAny(c))
            && (SyntaxErrors in r.errors <==> !Balanced(c))
  {
    var f := Inspect(c, template);
    TailErrorIn(f, 0);
    TailErrorIn(f, 1);
    SyntaxErrorIn(f);
  }

  /** The four warnings, each reported exactly when its pattern holds, once
      the template checks have passed. */
  lemma WarningRules(c: string, template: Option<Result<string, string>>)
    requires !(Contains(c, "templateUrl:") && template.Some? && template.value.Err?)
    ensures var r := ValidateAngularComponent(Ok(c), template);
            && (ConstructorInjection in r.warnings <==> InjectsByConstructor(c))
            && (NoSignals in r.warnings <==> LacksSignals(c))
            && (OldInput in r.warnings <==> UsesOldInput(c))
            && (OldOutput in r.warnings <==> UsesOldOutput(c))
  {
    WarningIssues(Inspect(c, template));
  }

  /** The four warnings, over the findings. */
  lemma WarningIssues(f: Findings)
    requires !TemplateReadFails(f)
    ensures ConstructorInjection in Decide(f).warnings <==> f.constructorInjection
    ensures NoSignals in Decide(f).warnings <==> f.noSignals
    ensures OldInput in Decide(f).warnings <==> f.oldInput
    ensures OldOutput in Decide(f).warnings <==> f.oldOutput
  {
    WarningIn(f, 0);
    WarningIn(f, 1);
    WarningIn(f, 2);
    WarningIn(f, 3);
  }

  /** The `any` test is on plain substrings: a type such as `Company[]`
      contains `any[]` and counts as a use of `any`. */
  lemma CompanyArrayUsesAny(c: string, k: nat)
    requires OccursAt(c, "Company[]", k)
    ensures UsesAny(c)
  {
    assert c[k + 4..k + 9] == c[k..k + 9][4..9];
    assert OccursAt(c, "any[]", k + 4);
    ContainsAt(c, "any[]", k + 4);
  }

  // ---------------------------------------------------------------------
  // Every converted component
  // ---------------------------------------------------------------------

  /** The template file checked next to a component file. */
  function TemplatePath(filePath: string): string {
    Join(Dirname(filePath), Basename(filePath, ".component.ts") + ".component.html")
  }

  /** `validateAngularComponent(filePath)` against a file system. */
  function ValidateFile(fs: FileSystem, filePath: string): (r: Report<Issue>)
    ensures filePath !in fs ==> r == Report([ReadFailed(NoSuchFile(filePath))], [])
    ensures filePath in fs ==> forall i :: i in r.errors ==> !i.ReadFailed?
  {
    var t := TemplatePath(filePath);
    var content := ReadFile(fs, filePath);
    var templateRead := if t in fs then Some(ReadFile(fs, t)) else None;
    if content.Ok? then
      NoReadFailure(Inspect(content.value, templateRead));
      ValidateAngularComponent(content, templateRead)
    else
      ValidateAngularComponent(content, templateRead)
  }

  /** When the template, if any, was read, no read failure is reported. */
  lemma NoReadFailure(f: Findings)
    requires !(f.template.Some? && f.template.value.Err?)
    ensures forall i :: i in Decide(f).errors ==> !i.ReadFailed?
  {
    var head := Picks(HeadOrder, HeadFlags(f));
    var template := Picks(TemplateOrder, TemplateFlags(f));
    var tail := Picks(TailOrder, TailFlags(f));
    var syntax := Picks([SyntaxErrors], [f.unbalanced]);
    assert Decide(f).errors == head + template + tail + syntax;
    forall i: Issue | i in head + template + tail + syntax
      ensures !i.ReadFailed?
    {
      assert i in head || i in template || i in tail || i in syntax;
    }
  }

  /** For `name.component.ts` in a canonical directory the template file is
      `name.component.html` in the same directory. */
  lemma TemplateBesideComponent(dir: string, name: string)
    requires Canonical(dir) && ProperSegment(name + ".component.ts") && name != ""
    ensures TemplatePath(Join(dir, name + ".component.ts")) == Join(dir, name + ".component.html")
  {
    var file := name + ".component.ts";
    var p := Join(dir, file);
    ChildPathParts(dir, file);
    JoinChild(dir, file);
    assert p[0] == '/';
    assert p != ".component.ts";
    assert EndsWith(file, ".component.ts");
    assert file[..|file| - 13] == name;
  }

  /** The component files the validator looks at. */
  predicate ComponentSelected(path: string) {
    Selected(path, ".component.ts", {"node_modules", "dist"}, [])
  }

  /** The reports of the given files, each validated on its own. */
  function Results(baseDir: string, files: seq<string>, fs: FileSystem): (r: seq<(string, Report<Issue>)>)
    ensures |r| == |files|
    ensures forall i :: 0 <= i < |files| ==> r[i].0 == files[i]
  {
    seq(|files|, i requires 0 <= i < |files| => (files[i], ValidateFile(fs, Join(baseDir, files[i]))))
  }

  function ReportedFiles(results: seq<(string, Report<Issue>)>): (names: seq<string>)
    ensures |names| == |results|
  {
    seq(|results|, i requires 0 <= i < |results| => results[i].0)
  }

  /** `validateAngularComponents(baseDir)`: the selected component files
      are validated one by one; with none there are no results. */
  function ValidateAngularComponents(baseDir: string, listed: seq<string>, fs: FileSystem): (r: Option<seq<(string, Report<Issue>)>>)
    ensures r.None? <==> |Filter(listed, ComponentSelected)| == 0
  {
    var files := Filter(listed, ComponentSelected);
    if |files| == 0 then None else Some(Results(baseDir, files, fs))
  }

  /** No results exactly when no `*.component.ts` file lies outside
      `node_modules` and `dist`; otherwise one report per such file, its own
      validation, in listing order. */
  lemma ValidateAngularComponentsCovers(baseDir: string, listed: seq<string>, fs: FileSystem)
    ensures var r := ValidateAngularComponents(baseDir, listed, fs);
            r.None? <==> forall p :: p in listed ==> !ComponentSelected(p)
    ensures var r := ValidateAngularComponents(baseDir, listed, fs);
            r.Some? ==>
              && (forall p :: p in ReportedFiles(r.value) <==> p in listed && ComponentSelected(p))
              && Subsequence(ReportedFiles(r.value), listed)
              && forall i :: 0 <= i < |r.value| ==> r.value[i].1 == ValidateFile(fs, Join(baseDir, r.value[i].0))
  {
    var files := Filter(listed, ComponentSelected);
    if |files| > 0 {
      assert files[0] in files;
      var r := Results(baseDir, files, fs);
      assert ReportedFiles(r) == files;
    }
  }
}
