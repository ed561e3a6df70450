/** `buildAngularPrompt`: the React to Angular conversion prompt. The
    template and the style guide are read from files and the mapping tables
    come from the bundled React-to-Angular mappings; all of them are
    parameters here. */
module AngularPromptBuilder {
  import opened Strings
  import opened Templates

  /** The placeholders of the conversion template, in the order the chain
      substitutes them. */
  const Names: seq<string> := ["STYLE_GUIDE", "COMPONENT_MAPPINGS", "HOOKS_MAPPINGS",
    "EVENT_MAPPINGS", "ATTRIBUTE_MAPPINGS", "COMPONENT_NAME", "TSX_CONTENT"]

  /** The four React-to-Angular tables, each in entry order. */
  datatype Mappings = Mappings(components: seq<(string, string)>,
                               hooks: seq<(string, string)>,
                               events: seq<(string, string)>,
                               attributes: seq<(string, string)>)

  /** What the React reader passes on: the component source and its name. */
  datatype ReactFiles = ReactFiles(tsx: string, name: string)

  /** The text each step inserts, in chain order. */
  function Values(styleGuide: string, mappings: Mappings, files: ReactFiles): seq<string> {
    [styleGuide, RenderMappings(mappings.components), RenderMappings(mappings.hooks),
     RenderMappings(mappings.events), RenderMappings(mappings.attributes), files.name, files.tsx]
  }

  /** The chain of `buildAngularPrompt`. */
  function Steps(styleGuide: string, mappings: Mappings, files: ReactFiles): seq<Step> {
    var vs := Values(styleGuide, mappings, files);
    seq(|Names|, i requires 0 <= i < |Names| => Step(Placeholder(Names[i]), vs[i]))
  }

  /** Every inserted text is plain, so `replace` inserts it as it
      stands. */
  predicate Literal(styleGuide: string, mappings: Mappings, files: ReactFiles) {
    && Plain(styleGuide)
    && TablePlain(mappings.components) && TablePlain(mappings.hooks)
    && TablePlain(mappings.events) && TablePlain(mappings.attributes)
    && Plain(files.name) && Plain(files.tsx)
  }

  lemma LiteralSteps(styleGuide: string, mappings: Mappings, files: ReactFiles)
    requires Literal(styleGuide, mappings, files)
    ensures Insertable(Steps(styleGuide, mappings, files))
  {
    RenderPlain(mappings.components);
    RenderPlain(mappings.hooks);
    RenderPlain(mappings.events);
    RenderPlain(mappings.attributes);
  }

  /** `buildAngularPrompt(files)`: each placeholder, in chain order, has its
      first occurrence replaced; a template holding none of them comes back
      unchanged. */
  function BuildAngularPrompt(template: string, styleGuide: string, mappings: Mappings, files: ReactFiles): (prompt: string)
    ensures (forall i :: 0 <= i < |Names| ==> !Contains(template, Placeholder(Names[i]))) ==> prompt == template
  {
    Fill(template, Steps(styleGuide, mappings, files))
  }

  lemma StepAt(styleGuide: string, mappings: Mappings, files: ReactFiles, i: nat)
    requires i < |Names|
    ensures |Steps(styleGuide, mappings, files)| == |Names|
    ensures Steps(styleGuide, mappings, files)[i] == Step(Placeholder(Names[i]), Values(styleGuide, mappings, files)[i])
  {
  }

  lemma NamesBraceFree()
    ensures forall i :: 0 <= i < |Names| ==> '{' !in Names[i] && '}' !in Names[i]
  {
  }

  lemma NamesDistinct()
    ensures forall i, i' :: 0 <= i < i' < |Names| ==> Names[i] != Names[i']
  {
  }

  /** The placeholders of the chain are braced and pairwise different. */
  lemma StepsApart(styleGuide: string, mappings: Mappings, files: ReactFiles)
    ensures Apart(Steps(styleGuide, mappings, files))
  {
    NamesBraceFree();
    NamesDistinct();
    NamedApart(Names, Steps(styleGuide, mappings, files));
  }

  /** A template laid out with each of the seven placeholders exactly once,
      in any order, whose filled-in text holds no placeholder, becomes that
      filled-in text: every inserted text appears and no placeholder
      remains. */
  lemma AngularFillsTemplate(segs: seq<Seg>, styleGuide: string, mappings: Mappings, files: ReactFiles)
    requires Literal(styleGuide, mappings, files)
    requires SlotsIn(segs, |Names|) && forall i :: 0 <= i < |Names| ==> SlotOnce(segs, i)
    requires FilledClean(segs, Steps(styleGuide, mappings, files))
    ensures BuildAngularPrompt(Render(segs, Steps(styleGuide, mappings, files), 0), styleGuide, mappings, files)
            == Render(segs, Steps(styleGuide, mappings, files), |Names|)
    ensures forall i :: 0 <= i < |Names| ==>
              Contains(Render(segs, Steps(styleGuide, mappings, files), |Names|), Values(styleGuide, mappings, files)[i])
              && !Contains(Render(segs, Steps(styleGuide, mappings, files), |Names|), Placeholder(Names[i]))
  {
    var steps := Steps(styleGuide, mappings, files);
    LiteralSteps(styleGuide, mappings, files);
    StepsApart(styleGuide, mappings, files);
    LaidOutFills(segs, steps);
    var done := Render(segs, steps, |steps|);
    assert BuildAngularPrompt(Render(segs, steps, 0), styleGuide, mappings, files) == done;
    forall i | 0 <= i < |Names|
      ensures Contains(done, Values(styleGuide, mappings, files)[i]) && !Contains(done, Placeholder(Names[i]))
    {
      StepAt(styleGuide, mappings, files, i);
    }
  }

  /** The TSX source is inserted by the last step: the prompt is what the
      first six steps leave, with the first TSX placeholder replaced, and
      the source appears there verbatim. */
  lemma TsxInsertedLast(template: string, styleGuide: string, mappings: Mappings, files: ReactFiles)
    requires Literal(styleGuide, mappings, files)
    ensures Insertable(Steps(styleGuide, mappings, files)[..6])
    ensures var mid := Fill(template, Steps(styleGuide, mappings, files)[..6]);
            var prompt := BuildAngularPrompt(template, styleGuide, mappings, files);
            && prompt == ReplaceFirst(mid, Placeholder("TSX_CONTENT"), files.tsx)
            && (Contains(mid, Placeholder("TSX_CONTENT")) ==>
                  OccursAt(prompt, files.tsx, IndexOf(mid, Placeholder("TSX_CONTENT"))))
  {
    var steps := Steps(styleGuide, mappings, files);
    LiteralSteps(styleGuide, mappings, files);
    StepAt(styleGuide, mappings, files, 6);
    FillLast(template, steps);
  }

  /** Placeholders inside the TSX source are never substituted: a template
      that is just the TSX placeholder yields the source unchanged. */
  lemma TsxVerbatim(styleGuide: string, mappings: Mappings, files: ReactFiles)
    requires Literal(styleGuide, mappings, files)
    ensures BuildAngularPrompt(Placeholder("TSX_CONTENT"), styleGuide, mappings, files) == files.tsx
  {
    var steps := Steps(styleGuide, mappings, files);
    LiteralSteps(styleGuide, mappings, files);
    StepsApart(styleGuide, mappings, files);
    StepAt(styleGuide, mappings, files, 6);
    FillWhole(steps, 0, 6);
    assert steps[0..] == steps;
    assert steps[7..] == [];
  }

  /** The TSX source is not always inserted verbatim: `replace` expands
      `$` sequences in it, so a doubled `$`, as in the template literal
      `` `$${price}` ``, reaches the prompt with one `$` fewer. */
  lemma TsxLosesDoubledDollar(styleGuide: string, mappings: Mappings, name: string, pre: string, post: string)
    requires Literal(styleGuide, mappings, ReactFiles("", name))
    requires '$' !in pre && '$' !in post
    ensures BuildAngularPrompt(Placeholder("TSX_CONTENT"), styleGuide, mappings, ReactFiles(pre + "$$" + post, name))
            == pre + "$" + post
  {
    var files := ReactFiles(pre + "$$" + post, name);
    var steps := Steps(styleGuide, mappings, files);
    var p := Placeholder("TSX_CONTENT");
    StepsApart(styleGuide, mappings, files);
    StepAt(styleGuide, mappings, files, 6);
    OthersAbsent(steps, 6);
    assert Fill(p, steps[..6]) == p by {
      assert forall i :: 0 <= i < 6 ==> steps[..6][i] == steps[i];
    }
    FillLast(p, steps);
    ReplaceWhole(p, files.tsx);
    DoubledDollarCollapses(pre, post, "", p, "");
  }

  /** Placeholders inside the style guide, inserted first, are substituted
      by the later steps: a style guide naming the component placeholder
      brings in the component name. */
  lemma StyleGuideNameSubstituted(mappings: Mappings, files: ReactFiles)
    requires Literal(Placeholder("COMPONENT_NAME"), mappings, files)
    requires !Contains(files.name, Placeholder("TSX_CONTENT"))
    ensures BuildAngularPrompt(Placeholder("STYLE_GUIDE"), Placeholder("COMPONENT_NAME"), mappings, files) == files.name
  {
    var styleGuide := Placeholder("COMPONENT_NAME");
    var steps := Steps(styleGuide, mappings, files);
    LiteralSteps(styleGuide, mappings, files);
    StepsApart(styleGuide, mappings, files);
    StepAt(styleGuide, mappings, files, 0);
    StepAt(styleGuide, mappings, files, 5);
    StepAt(styleGuide, mappings, files, 6);
    Relay(steps, 0, 5);
    assert steps[6..][0] == steps[6] && steps[6..][1..] == [];
  }

  /** Only the first copy of a placeholder is replaced. */
  lemma OnlyFirstTsxReplaced(styleGuide: string, mappings: Mappings, files: ReactFiles)
    requires Literal(styleGuide, mappings, files)
    ensures BuildAngularPrompt(Placeholder("TSX_CONTENT") + Placeholder("TSX_CONTENT"), styleGuide, mappings, files)
            == files.tsx + Placeholder("TSX_CONTENT")
  {
    var steps := Steps(styleGuide, mappings, files);
    LiteralSteps(styleGuide, mappings, files);
    StepsApart(styleGuide, mappings, files);
    OthersAbsent(steps, 6);
    StepAt(styleGuide, mappings, files, 6);
    FillLeading(steps, 0, 6, steps[6].placeholder);
    assert steps[0..] == steps;
    assert steps[7..] == [];
  }

  /** The style guide and the four tables, inserted before the component
      name, are free of `}`. */
  predicate CloseFree(styleGuide: string, mappings: Mappings) {
    && '}' !in styleGuide
    && TableLacks(mappings.components, '}') && TableLacks(mappings.hooks, '}')
    && TableLacks(mappings.events, '}') && TableLacks(mappings.attributes, '}')
  }

  lemma CloseFreeSteps(styleGuide: string, mappings: Mappings, files: ReactFiles)
    requires CloseFree(styleGuide, mappings) && '}' !in files.name
    ensures forall i :: 0 <= i < |Names| - 1 ==> '}' !in Values(styleGuide, mappings, files)[i]
    ensures forall i :: 0 <= i < |Names| - 1 ==> '}' !in Steps(styleGuide, mappings, files)[i].value
  {
    RenderLacks(mappings.components, '}');
    RenderLacks(mappings.hooks, '}');
    RenderLacks(mappings.events, '}');
    RenderLacks(mappings.attributes, '}');
    forall i | 0 <= i < |Names| - 1
      ensures '}' !in Steps(styleGuide, mappings, files)[i].value
    {
      StepAt(styleGuide, mappings, files, i);
    }
  }

  /** No inserted text holds a placeholder of the chain: all but the TSX
      lack `}`, and the TSX lacks `{`. */
  lemma ValuesPlaceholderFree(styleGuide: string, mappings: Mappings, files: ReactFiles)
    requires CloseFree(styleGuide, mappings) && '}' !in files.name && '{' !in files.tsx
    ensures forall i, j :: 0 <= i < |Names| && 0 <= j < |Names| ==>
              !Contains(Values(styleGuide, mappings, files)[i], Placeholder(Names[j]))
  {
    var vs := Values(styleGuide, mappings, files);
    CloseFreeSteps(styleGuide, mappings, files);
    forall i, j | 0 <= i < |Names| && 0 <= j < |Names|
      ensures !Contains(vs[i], Placeholder(Names[j]))
    {
      var p := Placeholder(Names[j]);
      if i < |Names| - 1 {
        NotContainsByChar(vs[i], p, |p| - 1);
      } else {
        NotContainsByChar(vs[i], p, 0);
      }
    }
  }

  /** The "no placeholder remains" conclusion of `AngularFillsTemplate`
      needs its premise on the finished text: a template holding each of
      the seven placeholders once, in chain order, with placeholder-free
      inserted texts, still yields a prompt holding `{{STYLE_GUIDE}}` when
      the component name ends in `{{` and the TSX source starts with
      `STYLE_GUIDE}}`. The style-guide step has long run by then. */
  lemma NameCanCompletePlaceholder(styleGuide: string, mappings: Mappings, rest: string)
    requires Literal(styleGuide, mappings, ReactFiles("STYLE_GUIDE}}" + rest, "x{{"))
    requires CloseFree(styleGuide, mappings) && '{' !in rest
    ensures SlotsIn(InOrder(|Names|, ""), |Names|)
    ensures forall i :: 0 <= i < |Names| ==> SlotOnce(InOrder(|Names|, ""), i)
    ensures forall i, j :: 0 <= i < |Names| && 0 <= j < |Names| ==>
              !Contains(Values(styleGuide, mappings, ReactFiles("STYLE_GUIDE}}" + rest, "x{{"))[i], Placeholder(Names[j]))
    ensures BuildAngularPrompt(Render(InOrder(|Names|, ""), Steps(styleGuide, mappings, ReactFiles("STYLE_GUIDE}}" + rest, "x{{")), 0),
                               styleGuide, mappings, ReactFiles("STYLE_GUIDE}}" + rest, "x{{"))
            == Render(InOrder(|Names|, ""), Steps(styleGuide, mappings, ReactFiles("STYLE_GUIDE}}" + rest, "x{{")), |Names|)
    ensures Contains(Render(InOrder(|Names|, ""), Steps(styleGuide, mappings, ReactFiles("STYLE_GUIDE}}" + rest, "x{{")), |Names|),
                     Placeholder("STYLE_GUIDE"))
  {
    var tsx := "STYLE_GUIDE}}" + rest;
    var files := ReactFiles(tsx, "x{{");
    var steps := Steps(styleGuide, mappings, files);
    InOrderLaidOut(|Names|, "");
    assert '{' !in tsx by {
      assert forall c :: c in tsx ==> c in "STYLE_GUIDE}}" || c in rest;
    }
    ValuesPlaceholderFree(styleGuide, mappings, files);
    ChainInOrder(styleGuide, mappings, files);
    assert Contains(Render(InOrder(|Names|, ""), steps, |Names|), Placeholder("STYLE_GUIDE")) by {
      StepAt(styleGuide, mappings, files, 5);
      StepAt(styleGuide, mappings, files, 6);
      InOrderLast(steps, "");
      SplitLast(steps);
      CompletedStyleGuide(Render(SlotRun(0, 5), steps, 7), rest);
    }
  }

  /** On the in-order template the chain is simultaneous substitution. */
  lemma ChainInOrder(styleGuide: string, mappings: Mappings, files: ReactFiles)
    requires Literal(styleGuide, mappings, files) && CloseFree(styleGuide, mappings) && '}' !in files.name
    ensures BuildAngularPrompt(Render(InOrder(|Names|, ""), Steps(styleGuide, mappings, files), 0), styleGuide, mappings, files)
            == Render(InOrder(|Names|, ""), Steps(styleGuide, mappings, files), |Names|)
  {
    LiteralSteps(styleGuide, mappings, files);
    StepsApart(styleGuide, mappings, files);
    CloseFreeSteps(styleGuide, mappings, files);
    InOrderFills(Steps(styleGuide, mappings, files), "");
  }

  /** The finished in-order text ends with the name and the TSX source. */
  lemma SplitLast(steps: seq<Step>)
    requires |steps| == 7
    ensures Render(SlotRun(0, 6), steps, 7) == Render(SlotRun(0, 5), steps, 7) + steps[5].value
  {
    assert SlotRun(0, 6) == SlotRun(0, 5) + [Slot(5)];
    RenderAppend(SlotRun(0, 5), [Slot(5)], steps, 7);
    RenderOne(Slot(5), steps, 7);
  }

  /** A name `x{{` followed by `STYLE_GUIDE}}` spells the style-guide
      placeholder. */
  lemma CompletedStyleGuide(front: string, rest: string)
    ensures Contains(front + "x{{" + ("STYLE_GUIDE}}" + rest) + "", Placeholder("STYLE_GUIDE"))
  {
    var p := Placeholder("STYLE_GUIDE");
    var t := front + "x{{" + ("STYLE_GUIDE}}" + rest) + "";
    assert t == (front + "x") + p + rest;
    ContainsInside(front + "x", p, rest, p);
  }
}
