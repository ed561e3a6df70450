# converter-rn: the string and path core, in Dafny

converter-rn turns Ionic/Angular pages into React Native components, and
React components into Angular standalone components, by prompting a
language model. This project models the deterministic part of that
pipeline as pure functions over `seq<char>` and proves what each part
promises:

- **Injection defences** (module `PromptSanitizer`, `PathValidator`):
  - escaping of the ten forbidden markers into `[ESCAPED:…]`;
  - the `<USER_CODE type="…">` wrapper;
  - the check that the response markers are present and in order;
  - single-pass marker stripping of display names;
  - lexical path resolution with the character-prefix containment test;
  - the allow-list file-name sanitiser.
- **Response parsing** (module `Sections`, `GeminiClient`, `AngularClient`):
  - marker-delimited section capture;
  - `cleanupCode` fence stripping;
  - the choice between writing the component files and saving the raw
    answer as partial output.
- **Prompt synthesis** (module `Templates`, `PromptBuilder`,
  `AngularPromptBuilder`):
  - mapping tables rendered as `key → value` lines;
  - the fixed chain of first-occurrence `replace` calls.
- **Output naming** (module `Writer`, `AngularWriter`):
  - `toKebabCase`;
  - the file-name suffixes;
  - the `outputDir || fullPath` target directory.
- **Discovery** (module `Finder`, `ReactFinder`):
  - the descriptors built from a file listing and a file system;
  - the boolean structure of `isReactComponent`.
- **Validators** (module `Validation`, `ReactCheck`, `AngularCheck`):
  - the per-file rule sets built from substring tests;
  - the count-based bracket balance check.

How the environment is represented:
- The file system is a `map<string, string>` from absolute path to
  contents. Existence is membership, and a read of a missing path yields
  Node's `ENOENT` message (`Scan.ReadFile`).
- A glob is the list of relative paths the walk produces, in walk order.
  It is filtered by the ignore rules written out in `Scan`.
- `process.cwd()` is a parameter `cwd`.
- Node's `path` module (POSIX flavour) is written out in `Paths`:
  `normalize`, `resolve`, `join`, `dirname`, `basename`, `extname` and
  `relative`.
- JavaScript's `indexOf`, `includes`, `split`, `join`, `trim`, `replace`
  with a string pattern, and `startsWith`/`endsWith` are written out in
  `Strings`.
- Writers return the list of effects they perform (`EnsureDir`,
  `WriteFile`) instead of performing them.
- A thrown error is an `Err` or a `thrown` field.

The sharp edges of the code are reproduced, not fixed, and each is stated
as a lemma:
- the path check compares prefixes by character (`/p` accepts `/p-evil`);
- name stripping is single-pass and can form a new marker;
- a closing fence followed by a line break is kept;
- every placeholder replacement touches only the first occurrence;
- an empty section is `""` for the React Native parser and `null` for the
  Angular one.

Neither sanitiser is called by the builders or writers, so each is
modelled on its own.

## Model

| member | source | states |
|---|---|---|
| PromptSanitizer.ForbiddenMarkersWellFormed | src/utils/prompt-sanitizer.js:6-17 | Every forbidden marker is a `===NAME===` section marker or a `{{NAME}}` placeholder, its name made of capitals and `_`. |
| PromptSanitizer.EscapingCoversMarker | src/utils/prompt-sanitizer.js:53-56 | Replacing every occurrence of a marker by `[ESCAPED:marker]` leaves no bare occurrence of it, whatever the input. |
| PromptSanitizer.EscapingKeepsOthersEscaped | src/utils/prompt-sanitizer.js:53-56 | Escaping one marker keeps every already escaped occurrence of another marker escaped and creates no bare one. |
| PromptSanitizer.EscapingAddsNoMarker | src/utils/prompt-sanitizer.js:53-56 | Escaping one marker never creates an occurrence of a marker the text lacked. |
| PromptSanitizer.FoundMarkers | src/utils/prompt-sanitizer.js:44-46 | A marker is found exactly when it is listed and the content contains it; no more markers are found than listed. |
| PromptSanitizer.EscapeMarkersSound | src/utils/prompt-sanitizer.js:44-57 | After the escaping step every occurrence of every forbidden marker sits directly between `[ESCAPED:` and `]`; a marker the content lacked is still absent; content without markers is unchanged. |
| PromptSanitizer.UnescapeUndoesStep | src/utils/prompt-sanitizer.js:53-56 | For a text without `[ESCAPED:m]`, turning every `[ESCAPED:m]` of the escaped text back into `m` gives the text back: one escaping step loses nothing. |
| PromptSanitizer.EscapeMarkersReversible | src/utils/prompt-sanitizer.js:44-57 | For content without `[ESCAPED:`, undoing the escapes of the found markers, last marker first, gives the content back, so every character that is not part of a marker survives in place. |
| PromptSanitizer.WrapInSafeDelimiters | src/utils/prompt-sanitizer.js:80-84 | The wrapped text is as long as the typed opening delimiter, the content and the closing delimiter together, and unwrapping it for the same type gives the content back. |
| PromptSanitizer.SanitizeCodeContent | src/utils/prompt-sanitizer.js:38-71 | Empty or non-string content gives `""` with no wrapper; otherwise the result unwraps to a body with no bare forbidden marker, equal to the content when it held none, from which the content comes back by unescaping when it held no `[ESCAPED:` text; escaping is reported exactly when some marker occurred. |
| PromptSanitizer.SuspiciousPatternsOnlyLog | src/utils/prompt-sanitizer.js:59-67 | Whether an instruction-override pattern matched does not change the returned text. |
| PromptSanitizer.CheckPresent | src/utils/prompt-sanitizer.js:99-104 | The presence loop accepts exactly when every expected marker occurs in the response. |
| PromptSanitizer.CheckOrder | src/utils/prompt-sanitizer.js:107-115 | The order loop accepts exactly when the first-occurrence indices strictly increase after the starting index. |
| PromptSanitizer.ValidateAIResponse | src/utils/prompt-sanitizer.js:93-118 | False for an empty or non-string response; otherwise true exactly when every marker is present and their first occurrences strictly increase. |
| PromptSanitizer.DuplicateOrReversedMarkersRejected | src/utils/prompt-sanitizer.js:107-117 | A marker listed twice, or two markers whose first occurrences are reversed, make the check false. |
| PromptSanitizer.StripForbidden | src/utils/prompt-sanitizer.js:131-134 | Stripping never lengthens the name, leaves a name holding none of the markers unchanged, and makes a name holding one strictly shorter. |
| PromptSanitizer.StripSkipsAbsent | src/utils/prompt-sanitizer.js:131-134 | A marker the name does not contain is skipped: the deletion of it changes nothing. |
| PromptSanitizer.StripOnlyMarker | src/utils/prompt-sanitizer.js:131-134 | A name whose only forbidden marker is the `k`-th, and which deleting that marker leaves free of the later ones, loses exactly every occurrence of that marker and nothing else. |
| PromptSanitizer.SanitizeComponentName | src/utils/prompt-sanitizer.js:126-137 | An empty or non-string name gives `Component`; otherwise the result is trimmed, equals the trimmed name when it holds no marker, and is strictly shorter than the name when it holds one. |
| PromptSanitizer.MarkerNameSanitizesToEmpty | src/utils/prompt-sanitizer.js:126-137 | A name that is exactly the `k`-th forbidden marker sanitises to `""`: the fallback is decided before stripping. |
| PromptSanitizer.MarkerNamesSanitizeToEmpty | src/utils/prompt-sanitizer.js:126-137 | Every forbidden marker, given as the whole name, sanitises to `""` and not to `Component`. |
| PromptSanitizer.StrippingCanFormMarker | src/utils/prompt-sanitizer.js:131-136 | Deletion is single-pass: removing `{{HTML_CONTENT}}` from `===COMP{{HTML_CONTENT}}ONENT===` leaves `===COMPONENT===`, so the result is not marker-free. |
| PathValidator.ValidatePath | src/utils/path-validator.js:13-29 | On success the result is the normalised resolution of the user path against the base, a canonical absolute path whose text starts with the normalised base; it fails exactly when that prefix test fails. |
| PathValidator.CurrentDirectoryAccepted | src/utils/path-validator.js:15-28 | `.` and the empty user path are accepted and name the resolved base itself. |
| PathValidator.BelowBaseAccepted | src/utils/path-validator.js:15-28 | Any user path resolving to the base's segments followed by more segments is accepted. |
| PathValidator.ChildAccepted | src/utils/path-validator.js:15-28 | A proper segment is accepted and names the child `path.join` builds. |
| PathValidator.ParentRejected | src/utils/path-validator.js:23-26 | `..` from any base other than the root is rejected. |
| PathValidator.AbsoluteInsideAccepted | src/utils/path-validator.js:15-28 | An absolute canonical user path below the base is accepted as it is. |
| PathValidator.SiblingWithCommonPrefixAccepted | src/utils/path-validator.js:23 | From base `…/b`, the path `../b<x>` names the sibling `…/b<x>` and is accepted, although that sibling is not below the base. |
| PathValidator.PrefixSiblingExample | src/utils/path-validator.js:23 | From `/p`, the path `../p-evil` is accepted as `/p-evil`. |
| PathValidator.KeepSafe | src/utils/path-validator.js:45 | The result holds only characters of `[A-Za-z0-9._-]`, holds every such character of the input, and is no longer than the input. |
| PathValidator.KeepSafeAppend | src/utils/path-validator.js:45 | Filtering distributes over concatenation, so the kept characters stay in input order. |
| PathValidator.SanitizeComponentName | src/utils/path-validator.js:38-58 | Fails on a non-string or empty name, on a name with no allowed character and on one of dots only; on success the result is the allowed characters of the input, non-empty and not all dots. |
| PathValidator.SanitizeComponentNameIdempotent | src/utils/path-validator.js:45-57 | Sanitising an accepted name again gives it back unchanged. |
| PathValidator.SanitizedNameStaysInside | src/utils/path-validator.js:45-57 | An accepted name joined onto a canonical base is a child of that base. |
| PathValidator.ValidateOutputDirectory | src/utils/path-validator.js:67-70 | An accepted output directory is a canonical absolute path whose text starts with the working directory; a rejection is the traversal error. |
| PathValidator.OutputDirectoryBounds | src/utils/path-validator.js:67-70 | From a canonical working directory other than the root, `.` is accepted as that directory and `..` is rejected. |
| Sections.SectionEnd | src/converter/gemini-client.js:57 | The end of a section is the first occurrence of the closing marker at or after the start, or the end of the text. |
| Sections.Capture | src/converter/angular-client.js:66-67 | A capture exists exactly when the opening marker occurs; it starts after the first occurrence and its leading white space and stops before the closing marker or at the end of the text. |
| Sections.Section | src/converter/angular-client.js:66-67 | The captured text exists exactly when the opening marker occurs, and never starts with white space. |
| Sections.SectionStopsAtClose | src/converter/gemini-client.js:57 | A section ended by a closing marker never contains that marker. |
| Sections.FormattedSections | src/converter/gemini-client.js:57-62 | In `pre`, marker, line break, `x`, line break, marker, line break, `y`, the two sections are `x` and `y` with leading white space skipped, whatever precedes the first marker. |
| GeminiClient.ParseResponse | src/converter/gemini-client.js:56-64 | Each section is null exactly when its marker is missing, and is otherwise trimmed. |
| GeminiClient.ParseFormattedResponse | src/converter/gemini-client.js:57-62 | A formatted answer parses to its trimmed component and styles text; text before the first marker is ignored and fences are kept. |
| GeminiClient.ComponentStopsAtStyles | src/converter/gemini-client.js:57-61 | The component section never contains the styles marker. |
| GeminiClient.ConvertComponent | src/converter/gemini-client.js:34-53 | A failed call saves its message as partial output and re-raises it; an answer with both sections non-empty writes exactly the parsed component and styles sections with `writeConvertedFiles`; any other answer is saved verbatim as partial output. |
| GeminiClient.ConvertFormattedAnswer | src/converter/gemini-client.js:34-39 | A formatted answer with non-empty sections writes exactly the trimmed sections to the component and styles files. |
| GeminiClient.BlankStylesSavesAnswer | src/converter/gemini-client.js:35-38 | An answer whose styles section is missing or empty is saved verbatim as partial output and nothing else is written. |
| AngularClient.CleanupCode | src/converter/angular-client.js:78-88 | Empty code gives null; a single line starting with a fence fails with the `startsWith` type error; any other result is trimmed. |
| AngularClient.CleanupFencedBlock | src/converter/angular-client.js:80-87 | A block opened by a fence line and closed by a fence line with nothing after it becomes its trimmed body. |
| AngularClient.CleanupKeepsFenceBeforeLineBreak | src/converter/angular-client.js:80-87 | When a line break follows the closing fence, the last line is empty, so the fence stays in the result. |
| AngularClient.CleanSection | src/converter/angular-client.js:69-70 | A missing or empty section is null; cleaning fails exactly for a single line starting with a fence; any other cleaned section is trimmed. |
| AngularClient.ParseAngularResponse | src/converter/angular-client.js:65-76 | Fails exactly when cleaning one of the sections fails; a missing marker gives null, and every present result is trimmed. |
| AngularClient.ParseFencedAnswer | src/converter/angular-client.js:65-76 | A formatted answer with fenced sections parses to the trimmed bodies, the component keeping its closing fence. |
| AngularClient.EmptyComponentSectionIsNull | src/converter/angular-client.js:69-70 | An empty component section is null, not the empty string. |
| AngularClient.ConvertReactToAngular | src/converter/angular-client.js:33-62 | An answer failing the marker check is saved as partial output without parsing; for one that passes, a parse failure is saved and re-raised, a parse with a non-empty component and template writes exactly those with `writeAngularFiles`, and any other parse saves the raw answer as partial output; files are written only in that one case. |
| AngularClient.ConvertFencedAnswer | src/converter/angular-client.js:43-52 | A well-formed fenced answer with a non-blank template writes the cleaned component and template. |
| AngularClient.FenceOnlyTemplateThrows | src/converter/angular-client.js:57-85 | A template section made of a single fence line throws; the error text is saved as partial output and re-raised. |
| Writer.TargetDir | src/converter/writer.js:5 | The target is the output directory when it is a non-empty string, else the component's full path; null and `""` both fall back. |
| Writer.WriteConvertedFiles | src/converter/writer.js:4-21 | Ensures the target directory, then writes the component and styles text verbatim to `name.tsx` and `name.styles.ts` there, and returns exactly those paths. |
| Writer.SavePartialOutput | src/converter/writer.js:23-33 | Ensures the target directory and writes the content verbatim to `name.partial.txt` there. |
| Writer.OutputFilesInTarget | src/converter/writer.js:8-28 | In a canonical target the three files are distinct children of it, named by the unaltered name and their suffixes. |
| AngularWriter.CamelBreaksAddsOnlyDashes | src/converter/angular-writer.js:37 | The first step only inserts dashes. |
| AngularWriter.CamelBreaksSplitsHumps | src/converter/angular-writer.js:37 | After the first step no lower-case letter or digit is followed directly by a capital. |
| AngularWriter.AcronymBreaksAddsOnlyDashes | src/converter/angular-writer.js:38 | The second step only inserts dashes. |
| AngularWriter.AcronymBreaksSplitsRuns | src/converter/angular-writer.js:38 | After the second step no capital is followed directly by a capital and a lower-case letter. |
| AngularWriter.CollapseGaps | src/converter/angular-writer.js:39 | The third step leaves no white space and no `_`. |
| AngularWriter.CollapseGapsRun | src/converter/angular-writer.js:39 | A maximal run of white space or `_` between two other characters becomes one dash. |
| AngularWriter.ToKebabCase | src/converter/angular-writer.js:35-41 | The result holds no capital, no white space and no `_`, and no `/` unless the input had one. |
| AngularWriter.ToKebabCaseIdempotent | src/converter/angular-writer.js:35-41 | Kebab-casing a kebab-cased name changes nothing. |
| AngularWriter.KebabMyApp | src/converter/angular-writer.js:35-41 | `myApp` becomes `my-app`. |
| AngularWriter.KebabIdCard | src/converter/angular-writer.js:37-40 | `IDCard` becomes `id-card`. |
| AngularWriter.KebabSnakeCase | src/converter/angular-writer.js:39-40 | `my_app` becomes `my-app`. |
| AngularWriter.WriteAngularFiles | src/converter/angular-writer.js:4-21 | Writes the component and template text verbatim to `kebab.component.ts` and `kebab.component.html` in the target directory and returns exactly those paths. |
| AngularWriter.SavePartialAngularOutput | src/converter/angular-writer.js:23-33 | Writes the content verbatim to `kebab.partial.txt` in the target directory. |
| AngularWriter.AngularOutputFilesInTarget | src/converter/angular-writer.js:8-28 | In a canonical target the three files are distinct children of it, named by the kebab-cased name and their suffixes. |
| Templates.RenderMappings | src/converter/prompt-builder.js:13-24 | The rendering is empty exactly for the empty table, and otherwise starts with the `key → value` line of the first entry. |
| Templates.RenderParse | src/converter/prompt-builder.js:13-24 | A table without line breaks and without arrows in its keys renders to a text that parses back to the same table. |
| Templates.ParseRender | src/converter/angular-prompt-builder.js:12-26 | A text that parses as a table is exactly what that table renders to. |
| Strings.Expand | src/converter/prompt-builder.js:27-35 | The replacement text `replace` inserts for a string pattern: `$$`, `$&`, `` $` `` and `$'` are expanded; a plain text, where no `$` is followed by one of those four characters, comes out unchanged. |
| Strings.ReplaceFirst | src/converter/prompt-builder.js:27-35 | Only the first occurrence is replaced, by the expanded replacement, with the text before and after it kept; a text without the pattern is unchanged. |
| Strings.DoubledDollarCollapses | src/converter/angular-prompt-builder.js:35 | Between texts without `$`, a doubled `$` expands to a single one. |
| Templates.RenderPlain | src/converter/prompt-builder.js:13-24 | A table of plain keys and values renders to a plain text. |
| Templates.Fill | src/converter/prompt-builder.js:26-35 | A template holding none of the chain's placeholders comes back unchanged. |
| Templates.FillAppend | src/converter/prompt-builder.js:26-35 | Running the chain in two parts is running it whole. |
| Templates.FillLaidOut | src/converter/prompt-builder.js:26-35 | A template laid out with each placeholder once, in any order, whose filled text holds no placeholder, becomes exactly that filled text. |
| Templates.InOrderFills | src/converter/prompt-builder.js:26-35 | For braced, pairwise different placeholders laid out once each in chain order, plain values (no `$` followed by `$`, `&`, a backquote or a quote) and no `}` in any value but the last, the chain is exactly simultaneous substitution, whatever text follows the last placeholder. |
| PromptBuilder.BuildPrompt | src/converter/prompt-builder.js:5-38 | Runs the nine substitutions in source order for any inserted texts, `$` sequences expanded as `replace` does; a template with none of the placeholders comes back unchanged. |
| PromptBuilder.ScssInsertedVerbatim | src/converter/prompt-builder.js:33-35 | A plain style sheet, such as one using `$primary` variables, fills a template that is just the SCSS placeholder verbatim, unless it names a later placeholder. |
| PromptBuilder.StepsApart | src/converter/prompt-builder.js:26-35 | The nine placeholders are braced and pairwise different. |
| PromptBuilder.BuildPromptFillsTemplate | src/converter/prompt-builder.js:26-35 | With each placeholder once in the template and a placeholder-free result, every inserted value appears and no placeholder remains. |
| PromptBuilder.HtmlCanCarryName | src/converter/prompt-builder.js:32-35 | A `{{COMPONENT_NAME}}` carried in by the HTML content is replaced by the later name step. |
| PromptBuilder.OnlyFirstNameReplaced | src/converter/prompt-builder.js:35 | Of two name placeholders only the first is replaced. |
| PromptBuilder.NameCanCompletePlaceholder | src/converter/prompt-builder.js:26-35 | For a template holding each of the nine placeholders once, the name placeholder last before the text `HTML_CONTENT}}`, and inserted values that are all placeholder-free, a name ending in `{{` makes the chain produce a prompt that still contains `{{HTML_CONTENT}}`. |
| AngularPromptBuilder.BuildAngularPrompt | src/converter/angular-prompt-builder.js:5-38 | Runs the seven substitutions in source order for any inserted texts, `$` sequences expanded as `replace` does; a template with none of the placeholders comes back unchanged. |
| AngularPromptBuilder.TsxLosesDoubledDollar | src/converter/angular-prompt-builder.js:35 | TSX source holding `$$`, as in the template literal `` `$${price}` ``, reaches the prompt with one `$` fewer, because `replace` expands the pair. |
| AngularPromptBuilder.AngularFillsTemplate | src/converter/angular-prompt-builder.js:28-35 | With each placeholder once in the template and a placeholder-free result, every inserted value appears and no placeholder remains. |
| AngularPromptBuilder.TsxInsertedLast | src/converter/angular-prompt-builder.js:35 | The TSX source is inserted by the last step, verbatim where its placeholder stood. |
| AngularPromptBuilder.TsxVerbatim | src/converter/angular-prompt-builder.js:29-35 | A template that is just the TSX placeholder becomes the TSX source verbatim, whatever placeholders the source holds. |
| AngularPromptBuilder.StyleGuideNameSubstituted | src/converter/angular-prompt-builder.js:29-34 | A placeholder inside the style guide, inserted first, is substituted by a later step. |
| AngularPromptBuilder.OnlyFirstTsxReplaced | src/converter/angular-prompt-builder.js:35 | Of two TSX placeholders only the first is replaced. |
| AngularPromptBuilder.NameCanCompletePlaceholder | src/converter/angular-prompt-builder.js:28-35 | For the template made of the seven placeholders once each in chain order, with inserted values that hold no placeholder, the name `x{{` followed by TSX source starting with `STYLE_GUIDE}}` makes the chain equal simultaneous substitution, and the prompt still contains `{{STYLE_GUIDE}}`. |
| Validation.CountIsMultiplicity | src/validator/check.js:91-96 | The number of matches of a one-character pattern is that character's multiplicity in the text. |
| Validation.ValidateSyntax | src/validator/check.js:90-101 | True exactly when `{`/`}`, `(`/`)` and `[`/`]` occur equally often, each pair on its own. |
| Validation.BalancedAppend | src/validator/check.js:90-101 | Two balanced texts joined are balanced. |
| Validation.BalancedIgnoresOrder | src/validator/angular-check.js:118-129 | Any rearrangement of a text is balanced exactly when the text is. |
| Validation.ClosedBeforeOpenPasses | src/validator/check.js:90-101 | `)(` passes. |
| Validation.PicksHas | src/validator/check.js:43-81 | With distinct issues, an issue is reported exactly when its check fires. |
| Validation.PicksOrdered | src/validator/check.js:43-81 | Reported issues keep their check order. |
| ReactCheck.ValidateComponent | src/validator/check.js:33-88 | An unreadable component gives the single read-failure error and no warning; an unreadable styles file makes its read failure the last error. |
| ReactCheck.ReportOrder | src/validator/check.js:43-81 | Errors and warnings come in check order, each at most once. |
| ReactCheck.ReactImportRule | src/validator/check.js:43-45 | "Missing React import" is reported exactly when neither `import React` nor `from 'react'` occurs. |
| ReactCheck.TypingRule | src/validator/check.js:47-49 | The React.FC warning is reported exactly when neither `React.FC` nor `: FC` occurs. |
| ReactCheck.ExportRule | src/validator/check.js:51-53 | "Missing export statement" is reported exactly when nothing matches `export\s+(default\|const)`. |
| ReactCheck.StylesCrossCheck | src/validator/check.js:55-64 | A `.styles` reference without a styles file is an error, a styles file without a reference a warning, and nothing otherwise. |
| ReactCheck.StylesFileRules | src/validator/check.js:66-76 | The styles-file checks run only on an existing, readable styles file, each reporting exactly when its test fails. |
| ReactCheck.SyntaxRule | src/validator/check.js:78-85 | The syntax error is reported exactly when the brackets are unbalanced, unless a styles read failed first. |
| ReactCheck.StylesBesideComponent | src/validator/check.js:36-38 | For `name.tsx` the styles file is `name.styles.ts` in the same directory. |
| ReactCheck.ValidateFile | src/validator/check.js:33-88 | A missing component file gives the single `ENOENT` read-failure error and no warning; for an existing one no read failure is ever reported, since an existing styles file is always readable. |
| ReactCheck.ResultsAppend | src/validator/check.js:24-28 | Each file is validated on its own: the results for two lists are the results of each, joined. |
| ReactCheck.ValidateComponents | src/validator/check.js:7-31 | There are no results exactly when the listing selects no `.tsx` file. |
| ReactCheck.ValidateComponentsCovers | src/validator/check.js:10-28 | No results exactly when no `.tsx` file lies outside `node_modules` and `dist`; otherwise one result per such file, in listing order. |
| AngularCheck.ValidateAngularComponent | src/validator/angular-check.js:33-116 | An unreadable component gives the single read-failure error and no warning. |
| AngularCheck.TemplateReadFailure | src/validator/angular-check.js:68-113 | A named template that cannot be read ends the checks: its read failure is the last error and there are no warnings. |
| AngularCheck.ReportOrder | src/validator/angular-check.js:43-109 | Errors and warnings come in check order, each at most once. |
| AngularCheck.DecoratorRules | src/validator/angular-check.js:43-53 | A missing `@Component`, `standalone: true` or `selector:` each adds its own error, whatever else the file holds. |
| AngularCheck.OldControlFlowRule | src/validator/angular-check.js:55-57 | Any `*ngIf`, `*ngFor` or `*ngSwitch` adds the old-control-flow error, whatever else the file holds. |
| AngularCheck.TemplateMissingRule | src/validator/angular-check.js:61-70 | Template checks run only when `templateUrl:` is present; a missing template file is then an error. |
| AngularCheck.TemplateSyntaxRule | src/validator/angular-check.js:71-74 | Old control flow in a named, readable template is an error of its own. |
| AngularCheck.ClassAndTypeRules | src/validator/angular-check.js:77-109 | A missing `export class`, a use of `any` and unbalanced brackets each add their error exactly when their test holds. |
| AngularCheck.CompanyArrayUsesAny | src/validator/angular-check.js:81-83 | The `any` test is on plain substrings, so `Company[]` counts as a use of `any`. |
| AngularCheck.WarningRules | src/validator/angular-check.js:85-104 | Each of the four warnings is reported exactly when its pattern holds. |
| AngularCheck.TemplateBesideComponent | src/validator/angular-check.js:36-38 | For `name.component.ts` the template file is `name.component.html` in the same directory. |
| AngularCheck.ValidateFile | src/validator/angular-check.js:33-116 | A missing component file gives the single `ENOENT` read-failure error and no warning; for an existing one no read failure is ever reported, since an existing template file is always readable. |
| AngularCheck.ValidateAngularComponentsCovers | src/validator/angular-check.js:10-28 | No results exactly when no `.component.ts` file lies outside `node_modules` and `dist`; otherwise one result per such file. |
| AngularCheck.ValidateAngularComponents | src/validator/angular-check.js:7-31 | There are no results exactly when the listing selects no `.component.ts` file. |
| Finder.SpecIgnoreIdle | src/scanner/finder.js:6-10 | The `*.spec.ts` ignore never removes a `*.page.ts` file. |
| Finder.Describe | src/scanner/finder.js:15-31 | A described page's own file is the listed path joined onto the base, its directory is that file's directory, and every file it names exists. |
| Finder.FindComponents | src/scanner/finder.js:5-36 | There are at most as many pages as selected files, and every file a found page names exists. |
| Finder.DescribeRules | src/scanner/finder.js:15-31 | A file gives a page exactly when its template and the file itself exist, and the page names its style file exactly when that exists. |
| Finder.FoundPages | src/scanner/finder.js:14-35 | A page is found exactly when a selected listed file describes it. |
| Finder.AllPagesFound | src/scanner/finder.js:14-35 | When every selected page file has its template, there are exactly as many pages as selected files. |
| Finder.PagesInListingOrder | src/scanner/finder.js:14-35 | The pages' own files are the selected listing, joined onto the base, with the files that give no page dropped and the rest in listing order. |
| Finder.PageInSubdirectory | src/scanner/finder.js:17-31 | For `sub/name.page.ts` the page has name `name`, path `sub`, and sibling `.page.html` and `.page.ts` files in `base/sub`. |
| ReactFinder.Candidates | src/scanner/react-finder.js:6-27 | The candidates are the kept `.tsx` files followed by the kept `.jsx` files. |
| ReactFinder.IsReactComponent | src/scanner/react-finder.js:56-72 | Markup alone makes a file a component; without markup, a file lacking a React import is not one. |
| ReactFinder.ReactComponentIff | src/scanner/react-finder.js:56-72 | With markup the file is a component; without it, it needs a React import and a function or class component. |
| ReactFinder.Describe | src/scanner/react-finder.js:31-50 | A listed file is described exactly when its contents make it a component, whatever its path; its file is the listed path joined onto the base, its directory is that file's directory, and it is TypeScript exactly for the `.tsx` extension. |
| ReactFinder.UpperTagSuffices | src/scanner/react-finder.js:60-71 | A `<` followed by a capital makes the file a component. |
| ReactFinder.GenericTypeCounts | src/scanner/react-finder.js:60 | `Array<String>` counts as markup. |
| ReactFinder.ReturnParenMarkup | src/scanner/react-finder.js:61 | `return (` followed by markup counts as markup. |
| ReactFinder.NeedsImportOrMarkup | src/scanner/react-finder.js:71 | Without a React import and without markup a file is not a component. |
| ReactFinder.FindReactComponents | src/scanner/react-finder.js:5-54 | The walk succeeds exactly when every candidate joined onto the base exists, and then every component found names an existing file. |
| ReactFinder.FindReactComponentsOk | src/scanner/react-finder.js:29-54 | The walk succeeds exactly when every candidate can be read, and then holds the `.tsx` components followed by the `.jsx` ones. |
| ReactFinder.FindReactComponentsErr | src/scanner/react-finder.js:38 | A failed walk reports the read error of a candidate that does not exist. |
| ReactFinder.FoundComponents | src/scanner/react-finder.js:31-51 | A component is found exactly when a readable candidate's contents make it one, and it is that candidate's descriptor. |
| ReactFinder.ComponentInSubdirectory | src/scanner/react-finder.js:32-48 | For `sub/name.tsx` or `sub/name.jsx` the descriptor has name `name`, file name `name` + extension, path `sub`, and is TypeScript exactly for `.tsx`. |

## Left out

- The language-model call (src/converter/gemini-client.js:21-31 and src/converter/angular-client.js:20-31) is an external service. Its answer is the input `answer: Result<string, string>`.
- API-key storage (src/config/api-key.js) is foreign cryptography and interactive input. It is not part of this model.
- Configuration persistence (src/config/manager.js) is JSON file I/O. The mapping tables it loads are plain inputs to the builders.
- The menu, prompts, welcome screen, tree view, logger, error handler and entry point are console UI and process control. They are not part of this model, and neither are any logging side effects.
- The two readers (src/converter/reader.js, src/converter/react-reader.js) are bare reads. Their contents are inputs; `PromptBuilder.ComponentFiles` records that the SCSS text is `""` when a page has no style file.
- Glob matching is the input listing plus the ignore rules of `Scan`. Dot-file handling and traversal order are whatever the listing says.
- `fs.pathExists` is membership in the file-system map. `fs.ensureDir` and `fs.writeFile` become effects that always succeed.
- Scan.ReadFile: the failure message is Node's `ENOENT` text for a missing path only; other I/O errors are not modelled.
- PromptSanitizer.SanitizeCodeContent: the suspicious-pattern regular expressions only log, so whether they matched is a boolean parameter.
- ReactFinder.IsReactComponent: the import, function-component and class-component regular expressions are uninterpreted predicates (`Detectors`). The three markup patterns are written out.
- White space (`\s`, `trim`), `toLowerCase` and capital letters are ASCII only.
- PromptBuilder.BuildPrompt: accepts any inserted texts, but the lemmas that say where each value lands (`BuildPromptFillsTemplate`, `ScssInsertedVerbatim`, `HtmlCanCarryName`, `OnlyFirstNameReplaced`, `NameCanCompletePlaceholder`) require `Literal`: every value plain, with no `$` followed by `$`, `&`, a backquote or a quote. For other values those statements are not made, because `replace` expands such pairs.
- AngularPromptBuilder.BuildAngularPrompt: the same holds for its lemmas (`AngularFillsTemplate`, `TsxInsertedLast`, `TsxVerbatim`, `StyleGuideNameSubstituted`, `OnlyFirstTsxReplaced`, `NameCanCompletePlaceholder`). `TsxLosesDoubledDollar` states what happens to a doubled `$` instead.
- Templates.RenderMappings: a table is a sequence of pairs in entry order. JavaScript's ordering of integer-like keys first in `Object.entries` is not modelled.
- hasModernControlFlow (src/validator/angular-check.js:59-60) is computed and never used. The findings record has no field for it, so it cannot affect a report.
- PromptBuilder.BuildPromptFillsTemplate: requires that the filled text holds no placeholder, so "no placeholder remains" is a premise and not a conclusion. Placeholder-free inserted values are not enough: `PromptBuilder.NameCanCompletePlaceholder` meets that weaker premise with every placeholder once in the template, and the prompt still holds one.
- AngularPromptBuilder.AngularFillsTemplate: requires that the filled text holds no placeholder, so "no placeholder remains" is a premise and not a conclusion. `AngularPromptBuilder.NameCanCompletePlaceholder` shows that placeholder-free inserted values are not enough.
- Finder.DescribeRules: the descriptor fields are stated by `Finder.PageInSubdirectory`, and that only for a page in a subdirectory of a canonical base.
- AngularCheck.TemplateReadFailure: a template that exists but cannot be read is modelled as an `Err` read, which the map file system never produces on its own.
- Paths models the POSIX branch of Node's `path` module only. Windows paths are not modelled.
