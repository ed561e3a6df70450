/** `buildPrompt`: the Ionic/Angular to React Native conversion prompt.
    The template and the style guide are read from files and the mapping
    tables come from the loaded configuration; all of them are parameters
    here. */
module PromptBuilder {
  import opened Strings
  import opened Templates

  /** The placeholders of the conversion template, in the order the chain
      substitutes them. */
  const Names: seq<string> := ["COMPONENT_MAPPINGS", "DEPENDENCY_MAPPINGS", "ICON_LIBRARY",
    "ICON_MAPPINGS", "STYLE_GUIDE", "HTML_CONTENT", "SCSS_CONTENT", "TS_CONTENT", "COMPONENT_NAME"]

  /** The parts of the configuration the prompt uses. */
  datatype Config = Config(componentMappings: seq<(string, string)>,
                           dependencyMappings: seq<(string, string)>,
                           iconLibrary: string,
                           iconMappings: seq<(string, string)>)

  /** What `readComponentFiles` returns: the SCSS text is empty when the
      component has no style file. */
  datatype ComponentFiles = ComponentFiles(html: string, scss: string, ts: string, name: string)

  /** The text each step inserts, in chain order. */
  function Values(styleGuide: string, config: Config, files: ComponentFiles): seq<string> {
    [RenderMappings(config.componentMappings), RenderMappings(config.dependencyMappings),
     config.iconLibrary, RenderMappings(config.iconMappings), styleGuide,
     files.html, files.scss, files.ts, files.name]
  }

  /** The chain of `buildPrompt`. */
  function Steps(styleGuide: string, config: Config, files: ComponentFiles): seq<Step> {
    var vs := Values(styleGuide, config, files);
    seq(|Names|, i requires 0 <= i < |Names| => Step(Placeholder(Names[i]), vs[i]))
  }

  /** Every inserted text is plain, so `replace` inserts it as it
      stands. */
  predicate Literal(styleGuide: string, config: Config, files: ComponentFiles) {
    && TablePlain(config.componentMappings) && TablePlain(config.dependencyMappings)
    && Plain(config.iconLibrary) && TablePlain(config.iconMappings)
    && Plain(styleGuide) && Plain(files.html) && Plain(files.scss) && Plain(files.ts)
    && Plain(files.name)
  }

  lemma LiteralSteps(styleGuide: string, config: Config, files: ComponentFiles)
    requires Literal(styleGuide, config, files)
    ensures Insertable(Steps(styleGuide, config, files))
  {
    RenderPlain(config.componentMappings);
    RenderPlain(config.dependencyMappings);
    RenderPlain(config.iconMappings);
  }

  /** `buildPrompt(files)`: each placeholder, in chain order, has its first
      occurrence replaced; a template holding none of them comes back
      unchanged. */
  function BuildPrompt(template: string, styleGuide: string, config: Config, files: ComponentFiles): (prompt: string)
    ensures (forall i :: 0 <= i < |Names| ==> !Contains(template, Placeholder(Names[i]))) ==> prompt == template
  {
    Fill(template, Steps(styleGuide, config, files))
  }

  /** The placeholders of the chain are braced and pairwise different. */
  lemma StepsApart(styleGuide: string, config: Config, files: ComponentFiles)
    ensures Apart(Steps(styleGuide, config, files))
  {
    NamesAreApart();
    NamedApart(Names, Steps(styleGuide, config, files));
  }

  lemma NamesAreApart()
    ensures NamesApart(Names)
  {
    NamesBraceFree();
    NamesDistinct();
  }

  lemma NamesBraceFree()
    ensures forall i :: 0 <= i < |Names| ==> '{' !in Names[i] && '}' !in Names[i]
  {
  }

  lemma NamesDistinct()
    ensures forall i, i' :: 0 <= i < i' < |Names| ==> Names[i] != Names[i']
  {
  }

  /** A template laid out with each of the nine placeholders exactly once,
      in any order, whose filled-in text holds no placeholder, becomes that
      filled-in text: every inserted text appears and no placeholder
      remains. */
  lemma BuildPromptFillsTemplate(segs: seq<Seg>, styleGuide: string, config: Config, files: ComponentFiles)
    requires Literal(styleGuide, config, files)
    requires SlotsIn(segs, |Names|) && forall i :: 0 <= i < |Names| ==> SlotOnce(segs, i)
    requires FilledClean(segs, Steps(styleGuide, config, files))
    ensures BuildPrompt(Render(segs, Steps(styleGuide, config, files), 0), styleGuide, config, files)
            == Render(segs, Steps(styleGuide, config, files), |Names|)
    ensures forall i :: 0 <= i < |Names| ==>
              Contains(Render(segs, Steps(styleGuide, config, files), |Names|), Values(styleGuide, config, files)[i])
              && !Contains(Render(segs, Steps(styleGuide, config, files), |Names|), Placeholder(Names[i]))
  {
    var steps := Steps(styleGuide, config, files);
    LiteralSteps(styleGuide, config, files);
    StepsApart(styleGuide, config, files);
    LaidOutFills(segs, steps);
    var done := Render(segs, steps, |steps|);
    assert BuildPrompt(Render(segs, steps, 0), styleGuide, config, files) == done;
    forall i | 0 <= i < |Names|
      ensures Contains(done, Values(styleGuide, config, files)[i]) && !Contains(done, Placeholder(Names[i]))
    {
      StepAt(styleGuide, config, files, i);
    }
  }

  lemma StepAt(styleGuide: string, config: Config, files: ComponentFiles, i: nat)
    requires i < |Names|
    ensures |Steps(styleGuide, config, files)| == |Names|
    ensures Steps(styleGuide, config, files)[i] == Step(Placeholder(Names[i]), Values(styleGuide, config, files)[i])
  {
  }

  /** Style sheets that use `$` for variables, like `$primary: #333;`,
      are plain: a template that is just the SCSS placeholder yields the
      style sheet verbatim, as long as it does not name a later
      placeholder. */
  lemma ScssInsertedVerbatim(styleGuide: string, config: Config, files: ComponentFiles)
    requires Literal(styleGuide, config, files)
    requires !Contains(files.scss, Placeholder("TS_CONTENT")) && !Contains(files.scss, Placeholder("COMPONENT_NAME"))
    ensures BuildPrompt(Placeholder("SCSS_CONTENT"), styleGuide, config, files) == files.scss
  {
    var steps := Steps(styleGuide, config, files);
    LiteralSteps(styleGuide, config, files);
    StepsApart(styleGuide, config, files);
    StepAt(styleGuide, config, files, 6);
    StepAt(styleGuide, config, files, 7);
    StepAt(styleGuide, config, files, 8);
    FillWhole(steps, 0, 6);
    assert steps[0..] == steps;
    assert steps[7..] == [steps[7], steps[8]];
  }

  /** Content is not escaped: a placeholder carried in by the HTML is
      substituted by the component-name step that runs later. */
  lemma HtmlCanCarryName(styleGuide: string, config: Config, scss: string, ts: string, name: string)
    requires Literal(styleGuide, config, ComponentFiles(Placeholder("COMPONENT_NAME"), scss, ts, name))
    ensures BuildPrompt(Placeholder("HTML_CONTENT"), styleGuide, config,
                        ComponentFiles(Placeholder("COMPONENT_NAME"), scss, ts, name)) == name
  {
    var files := ComponentFiles(Placeholder("COMPONENT_NAME"), scss, ts, name);
    var steps := Steps(styleGuide, config, files);
    LiteralSteps(styleGuide, config, files);
    StepsApart(styleGuide, config, files);
    StepAt(styleGuide, config, files, 5);
    StepAt(styleGuide, config, files, 8);
    Relay(steps, 5, 8);
    assert steps[9..] == [];
  }

  /** Only the first copy of a placeholder is replaced. */
  lemma OnlyFirstNameReplaced(styleGuide: string, config: Config, files: ComponentFiles)
    requires Literal(styleGuide, config, files)
    ensures BuildPrompt(Placeholder("COMPONENT_NAME") + Placeholder("COMPONENT_NAME"), styleGuide, config, files)
            == files.name + Placeholder("COMPONENT_NAME")
  {
    var steps := Steps(styleGuide, config, files);
    var nm := steps[8].placeholder;
    LiteralSteps(styleGuide, config, files);
    StepsApart(styleGuide, config, files);
    OthersAbsent(steps, 8);
    FillLeading(steps, 0, 8, nm);
    assert steps[0..] == steps;
  }

  /** The component name is substituted last, so text after its
      placeholder that holds no `{` passes through the whole chain. */
  lemma NameThenText(styleGuide: string, config: Config, files: ComponentFiles, tail: string)
    requires Literal(styleGuide, config, files) && '{' !in tail
    ensures BuildPrompt(Placeholder("COMPONENT_NAME") + tail, styleGuide, config, files) == files.name + tail
  {
    var steps := Steps(styleGuide, config, files);
    LiteralSteps(styleGuide, config, files);
    StepsApart(styleGuide, config, files);
    forall i | 0 <= i < 8
      ensures !Contains(tail, steps[i].placeholder)
    {
      NotContainsByChar(tail, steps[i].placeholder, 0);
    }
    FillLeading(steps, 0, 8, tail);
    assert steps[0..] == steps;
    StepAt(styleGuide, config, files, 8);
    assert steps[9..] == [];
  }

  /** Everything inserted before the component name is free of `}`. */
  predicate CloseFree(styleGuide: string, config: Config, files: ComponentFiles) {
    && TableLacks(config.componentMappings, '}') && TableLacks(config.dependencyMappings, '}')
    && '}' !in config.iconLibrary && TableLacks(config.iconMappings, '}')
    && '}' !in styleGuide && '}' !in files.html && '}' !in files.scss && '}' !in files.ts
  }

  lemma CloseFreeSteps(styleGuide: string, config: Config, files: ComponentFiles)
    requires CloseFree(styleGuide, config, files)
    ensures forall i :: 0 <= i < |Names| - 1 ==> '}' !in Values(styleGuide, config, files)[i]
    ensures forall i :: 0 <= i < |Names| - 1 ==> '}' !in Steps(styleGuide, config, files)[i].value
  {
    RenderLacks(config.componentMappings, '}');
    RenderLacks(config.dependencyMappings, '}');
    RenderLacks(config.iconMappings, '}');
    forall i | 0 <= i < |Names| - 1
      ensures '}' !in Steps(styleGuide, config, files)[i].value
    {
      StepAt(styleGuide, config, files, i);
    }
  }

  /** No inserted text holds a placeholder of the chain: all but the name
      lack `}`, and the name `{{` is too short. */
  lemma ValuesPlaceholderFree(styleGuide: string, config: Config, html: string, scss: string, ts: string)
    requires CloseFree(styleGuide, config, ComponentFiles(html, scss, ts, "{{"))
    ensures forall i, j :: 0 <= i < |Names| && 0 <= j < |Names| ==>
              !Contains(Values(styleGuide, config, ComponentFiles(html, scss, ts, "{{"))[i], Placeholder(Names[j]))
  {
    var files := ComponentFiles(html, scss, ts, "{{");
    var vs := Values(styleGuide, config, files);
    CloseFreeSteps(styleGuide, config, files);
    forall i, j | 0 <= i < |Names| && 0 <= j < |Names|
      ensures !Contains(vs[i], Placeholder(Names[j]))
    {
      var p := Placeholder(Names[j]);
      if i < |Names| - 1 {
        NotContainsByChar(vs[i], p, |p| - 1);
      } else {
        ShortLacks(vs[i], p);
      }
    }
  }

  /** Placeholder-free inserted texts are not enough for a placeholder-free
      prompt, even for a template holding each of the nine placeholders
      exactly once. With the placeholders in chain order followed by
      `HTML_CONTENT}}`, the chain fills every slot, but a component name
      `{{` completes `{{HTML_CONTENT}}` after that step has run, and
      nothing substitutes it. */
  lemma NameCanCompletePlaceholder(styleGuide: string, config: Config, html: string, scss: string, ts: string)
    requires Literal(styleGuide, config, ComponentFiles(html, scss, ts, "{{"))
    requires CloseFree(styleGuide, config, ComponentFiles(html, scss, ts, "{{"))
    ensures SlotsIn(InOrder(|Names|, "HTML_CONTENT}}"), |Names|)
    ensures forall i :: 0 <= i < |Names| ==> SlotOnce(InOrder(|Names|, "HTML_CONTENT}}"), i)
    ensures forall i, j :: 0 <= i < |Names| && 0 <= j < |Names| ==>
              !Contains(Values(styleGuide, config, ComponentFiles(html, scss, ts, "{{"))[i], Placeholder(Names[j]))
    ensures BuildPrompt(Render(InOrder(|Names|, "HTML_CONTENT}}"), Steps(styleGuide, config, ComponentFiles(html, scss, ts, "{{")), 0),
                        styleGuide, config, ComponentFiles(html, scss, ts, "{{"))
            == Render(InOrder(|Names|, "HTML_CONTENT}}"), Steps(styleGuide, config, ComponentFiles(html, scss, ts, "{{")), |Names|)
    ensures Contains(Render(InOrder(|Names|, "HTML_CONTENT}}"), Steps(styleGuide, config, ComponentFiles(html, scss, ts, "{{")), |Names|),
                     Placeholder("HTML_CONTENT"))
  {
    var files := ComponentFiles(html, scss, ts, "{{");
    var steps := Steps(styleGuide, config, files);
    var tail := "HTML_CONTENT}}";
    InOrderLaidOut(|Names|, tail);
    ValuesPlaceholderFree(styleGuide, config, html, scss, ts);
    assert BuildPrompt(Render(InOrder(|Names|, tail), steps, 0), styleGuide, config, files)
           == Render(InOrder(|Names|, tail), steps, |Names|) by {
      LiteralSteps(styleGuide, config, files);
      StepsApart(styleGuide, config, files);
      CloseFreeSteps(styleGuide, config, files);
      InOrderFills(steps, tail);
    }
    assert Contains(Render(InOrder(|Names|, tail), steps, |Names|), Placeholder("HTML_CONTENT")) by {
      StepAt(styleGuide, config, files, 8);
      InOrderLast(steps, tail);
      CompletedPlaceholder(Render(SlotRun(0, 8), steps, 9));
    }
  }

  /** A name `{{` followed by `HTML_CONTENT}}` spells the HTML placeholder. */
  lemma CompletedPlaceholder(front: string)
    ensures Contains(front + "{{" + "HTML_CONTENT}}", Placeholder("HTML_CONTENT"))
  {
    var p := Placeholder("HTML_CONTENT");
    assert "{{" + "HTML_CONTENT}}" == p;
    Regroup(front, "{{", "HTML_CONTENT}}");
    assert OccursAt(front + p, p, |front|);
    ContainsAt(front + p, p, |front|);
  }
}
