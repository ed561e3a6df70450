/** Where the React Native converter puts its output: the target directory
    choice and the file names of `writeConvertedFiles` and
    `savePartialOutput`. File system calls become a list of effects. */
module Writer {
  import opened Wrappers
  import opened Paths

  /** A file system call the writers make, in order. */
  datatype Effect = EnsureDir(dir: string) | WriteFile(path: string, content: string)

  /** `outputDir || component.fullPath`: `None` stands for `null` or
      `undefined`; the empty string falls back as well. */
  function TargetDir(outputDir: Option<string>, fullPath: string): (d: string)
    ensures outputDir.Some? && outputDir.value != "" ==> d == outputDir.value
    ensures outputDir.None? || outputDir == Some("") ==> d == fullPath
  {
    if outputDir.Some? && outputDir.value != "" then outputDir.value else fullPath
  }

  /** What a conversion did: the file system calls it made, in order, and
      the message of the error it rethrew, if any. */
  datatype Outcome = Outcome(effects: seq<Effect>, thrown: Option<string>)

  /** What `writeConvertedFiles` does and returns. */
  datatype Written = Written(effects: seq<Effect>, componentPath: string, stylesPath: string)

  const ComponentSuffix := ".tsx"
  const StylesSuffix := ".styles.ts"
  const PartialSuffix := ".partial.txt"

  /** `writeConvertedFiles(component, outputDir, parsed)`: the directory is
      created, then the component and the styles text are written verbatim
      under the component's own name, and both paths are returned. */
  function WriteConvertedFiles(name: string, fullPath: string, outputDir: Option<string>,
                               component: string, styles: string): (w: Written)
    ensures |w.effects| == 3 && w.effects[0] == EnsureDir(TargetDir(outputDir, fullPath))
    ensures w.effects[1] == WriteFile(w.componentPath, component)
    ensures w.effects[2] == WriteFile(w.stylesPath, styles)
    ensures w.componentPath == Join(TargetDir(outputDir, fullPath), name + ComponentSuffix)
    ensures w.stylesPath == Join(TargetDir(outputDir, fullPath), name + StylesSuffix)
  {
    var targetDir := TargetDir(outputDir, fullPath);
    var componentPath := Join(targetDir, name + ComponentSuffix);
    var stylesPath := Join(targetDir, name + StylesSuffix);
    Written([EnsureDir(targetDir), WriteFile(componentPath, component), WriteFile(stylesPath, styles)],
            componentPath, stylesPath)
  }

  /** `savePartialOutput(component, outputDir, content)`: the content is
      written verbatim to `<name>.partial.txt`; the effects and the path. */
  function SavePartialOutput(name: string, fullPath: string, outputDir: Option<string>,
                             content: string): (r: (seq<Effect>, string))
    ensures r.0 == [EnsureDir(TargetDir(outputDir, fullPath)), WriteFile(r.1, content)]
    ensures r.1 == Join(TargetDir(outputDir, fullPath), name + PartialSuffix)
  {
    var targetDir := TargetDir(outputDir, fullPath);
    var partialPath := Join(targetDir, name + PartialSuffix);
    ([EnsureDir(targetDir), WriteFile(partialPath, content)], partialPath)
  }

  /** A file suffix: a dot, then at least two characters, no separator. */
  predicate FileSuffix(suffix: string) {
    |suffix| > 2 && suffix[0] == '.' && '/' !in suffix
  }

  lemma OutputSuffixes()
    ensures FileSuffix(ComponentSuffix) && FileSuffix(StylesSuffix) && FileSuffix(PartialSuffix)
    ensures |ComponentSuffix| == 4 && |StylesSuffix| == 10 && |PartialSuffix| == 12
  {
    NoSeparator(ComponentSuffix);
    NoSeparator(StylesSuffix);
    NoSeparator(PartialSuffix);
  }

  /** Checks a literal for separators one character at a time. */
  lemma NoSeparator(s: string)
    requires forall i :: 0 <= i < |s| ==> s[i] != '/'
    ensures '/' !in s
  {
  }

  /** A name with a suffix attached is a single path segment when the name
      has no separator. */
  lemma SuffixedSegment(name: string, suffix: string)
    requires '/' !in name && FileSuffix(suffix)
    ensures ProperSegment(name + suffix)
  {
    assert (name + suffix)[|name|] == '.';
    assert (name + suffix)[|name| + 1..] == suffix[1..];
  }

  /** A suffixed name joined onto a canonical directory lies directly in
      it. */
  lemma PlacedInTarget(dir: string, name: string, suffix: string)
    requires Canonical(dir) && '/' !in name && FileSuffix(suffix)
    ensures Dirname(Join(dir, name + suffix)) == dir
    ensures LastPiece(Join(dir, name + suffix)) == name + suffix
  {
    SuffixedSegment(name, suffix);
    ChildPathParts(dir, name + suffix);
  }

  /** With a canonical target directory and a separator-free name, the
      three output files lie directly in the target directory, carry the
      name and its suffix as their last piece, and are pairwise distinct. */
  lemma OutputFilesInTarget(name: string, fullPath: string, outputDir: Option<string>,
                            component: string, styles: string, content: string)
    requires Canonical(TargetDir(outputDir, fullPath)) && '/' !in name
    ensures var w := WriteConvertedFiles(name, fullPath, outputDir, component, styles);
            var p := SavePartialOutput(name, fullPath, outputDir, content).1;
            var d := TargetDir(outputDir, fullPath);
            && Dirname(w.componentPath) == d && LastPiece(w.componentPath) == name + ComponentSuffix
            && Dirname(w.stylesPath) == d && LastPiece(w.stylesPath) == name + StylesSuffix
            && Dirname(p) == d && LastPiece(p) == name + PartialSuffix
            && w.componentPath != w.stylesPath && w.componentPath != p && w.stylesPath != p
  {
    var w := WriteConvertedFiles(name, fullPath, outputDir, component, styles);
    var p := SavePartialOutput(name, fullPath, outputDir, content).1;
    var d := TargetDir(outputDir, fullPath);
    OutputSuffixes();
    PlacedInTarget(d, name, ComponentSuffix);
    PlacedInTarget(d, name, StylesSuffix);
    PlacedInTarget(d, name, PartialSuffix);
    SuffixesSeparate(w.componentPath, w.stylesPath, name, ComponentSuffix, StylesSuffix);
    SuffixesSeparate(w.componentPath, p, name, ComponentSuffix, PartialSuffix);
    SuffixesSeparate(w.stylesPath, p, name, StylesSuffix, PartialSuffix);
  }

  /** Paths whose last pieces carry suffixes of different lengths differ. */
  lemma SuffixesSeparate(x: string, y: string, name: string, s1: string, s2: string)
    requires LastPiece(x) == name + s1 && LastPiece(y) == name + s2 && |s1| != |s2|
    ensures x != y
  {
  }
}
