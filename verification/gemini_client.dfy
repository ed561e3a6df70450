/** The React Native converter's handling of the model's answer:
    `parseResponse`, and what `convertComponent` writes once the answer (or
    an error) is in. Reading the component, building the prompt, the API key
    and the network call are summed up by the answer they produce. */
module GeminiClient {
  import opened Wrappers
  import opened Strings
  import opened Sections
  import opened Writer

  const ComponentMarker := "===COMPONENT==="
  const StylesMarker := "===STYLES==="

  /** The two fields `parseResponse` returns; `None` stands for `null`. */
  datatype Parsed = Parsed(component: Option<string>, styles: Option<string>)

  /** Both fields are present and non-empty, the test `!parsed.component ||
      !parsed.styles` fails. */
  predicate Complete(p: Parsed) {
    p.component.Some? && p.component.value != "" && p.styles.Some? && p.styles.value != ""
  }

  /** `parseResponse(text)`: the component section runs from the component
      marker to the styles marker or the end, the styles section from the
      styles marker to the end; each is trimmed. A missing marker gives
      `null` for its field only. */
  function ParseResponse(text: string): (p: Parsed)
    ensures p.component.None? <==> !Contains(text, ComponentMarker)
    ensures p.styles.None? <==> !Contains(text, StylesMarker)
    ensures p.component.Some? ==> Trimmed(p.component.value)
    ensures p.styles.Some? ==> Trimmed(p.styles.value)
  {
    var c := Section(text, ComponentMarker, Some(StylesMarker));
    var s := Section(text, StylesMarker, None);
    var component := if c.Some? then Some(Trim(c.value)) else None;
    var styles := if s.Some? then Some(Trim(s.value)) else None;
    Parsed(component, styles)
  }

  lemma MarkerFacts()
    ensures |ComponentMarker| == 15 && ComponentMarker[0] == '='
    ensures |StylesMarker| == 12 && StylesMarker[0] == '=' && '\n' !in StylesMarker
    ensures !Contains(ComponentMarker, StylesMarker)
  {
    assert StylesMarker[5] == 'Y';
    assert forall i :: 0 <= i < |ComponentMarker| ==> ComponentMarker[i] != 'Y';
    NotContainsByChar(ComponentMarker, StylesMarker, 5);
  }

  /** The white space around a section laid out on its own lines does not
      survive trimming. */
  lemma TrimLaidOut(x: string)
    ensures Trim(SkipSpace("\n" + x + "\n")) == Trim(x)
    ensures Trim(SkipSpace("\n" + x)) == Trim(x)
  {
    TrimSkipSpace("\n" + x + "\n");
    TrimSpaceSuffix("\n" + x, "\n");
    TrimSkipSpace("\n" + x);
    TrimSpacePrefix("\n", x);
  }

  /** Reading back an answer laid out as the prompt asks: the preamble is
      ignored and each field is its section, trimmed, as long as the
      preamble has no `=` and the component does not contain the styles
      marker. */
  lemma ParseFormattedResponse(pre: string, x: string, y: string)
    requires '=' !in pre && !Contains(x, StylesMarker)
    ensures ParseResponse(Formatted(pre, ComponentMarker, x, StylesMarker, y)) == Parsed(Some(Trim(x)), Some(Trim(y)))
  {
    MarkerFacts();
    FormattedSections(pre, ComponentMarker, x, StylesMarker, y);
    TrimLaidOut(x);
    TrimLaidOut(y);
  }

  /** The component field never contains the styles marker: the section
      stops at the first one. */
  lemma ComponentStopsAtStyles(text: string)
    requires Contains(text, ComponentMarker)
    ensures !Contains(ParseResponse(text).component.value, StylesMarker)
  {
    MarkerFacts();
    var c := Section(text, ComponentMarker, Some(StylesMarker)).value;
    SectionStopsAtClose(text, ComponentMarker, StylesMarker);
    var r := Trim(c);
    var i := LeadingSpaceCount(c);
    if Contains(r, StylesMarker) {
      OccursInSlice(c, i, i + |r|, StylesMarker, IndexOf(r, StylesMarker));
    }
  }

  /** `convertComponent(component, outputDir)` from the point the answer is
      known. `answer` is the text of the answer, or the message of the
      error thrown while reading the files, building the prompt or calling
      the API. An error is saved as the partial output and rethrown; an
      answer lacking a non-empty component or styles section is saved as
      the partial output; otherwise both files are written. */
  function ConvertComponent(name: string, fullPath: string, outputDir: Option<string>,
                            answer: Result<string, string>): (o: Outcome)
    ensures answer.Err? ==> o == Outcome(SavePartialOutput(name, fullPath, outputDir, answer.error).0, Some(answer.error))
    ensures answer.Ok? ==> o.thrown.None? && |o.effects| >= 2 && o.effects[0] == EnsureDir(TargetDir(outputDir, fullPath))
    ensures answer.Ok? ==> (|o.effects| == 3 <==> Complete(ParseResponse(answer.value)))
    ensures answer.Ok? && !Complete(ParseResponse(answer.value)) ==>
              o == Outcome(SavePartialOutput(name, fullPath, outputDir, answer.value).0, None)
    ensures answer.Ok? && Complete(ParseResponse(answer.value)) ==>
              o == Outcome(WriteConvertedFiles(name, fullPath, outputDir, ParseResponse(answer.value).component.value,
                                               ParseResponse(answer.value).styles.value).effects, None)
  {
    match answer
    case Err(message) =>
      Outcome(SavePartialOutput(name, fullPath, outputDir, message).0, Some(message))
    case Ok(text) =>
      var parsed := ParseResponse(text);
      if !Complete(parsed) then
        Outcome(SavePartialOutput(name, fullPath, outputDir, text).0, None)
      else
        Outcome(WriteConvertedFiles(name, fullPath, outputDir, parsed.component.value, parsed.styles.value).effects, None)
  }

  /** A well-laid-out answer with non-blank sections writes exactly the
      trimmed sections to the component and styles files. */
  lemma ConvertFormattedAnswer(name: string, fullPath: string, outputDir: Option<string>,
                               pre: string, x: string, y: string)
    requires '=' !in pre && !Contains(x, StylesMarker) && Trim(x) != "" && Trim(y) != ""
    ensures ConvertComponent(name, fullPath, outputDir, Ok(Formatted(pre, ComponentMarker, x, StylesMarker, y)))
            == Outcome(WriteConvertedFiles(name, fullPath, outputDir, Trim(x), Trim(y)).effects, None)
  {
    ParseFormattedResponse(pre, x, y);
  }

  /** An answer whose styles section is missing or blank is kept whole as
      the partial output and nothing is thrown. */
  lemma BlankStylesSavesAnswer(name: string, fullPath: string, outputDir: Option<string>, text: string)
    requires !Contains(text, StylesMarker) || ParseResponse(text).styles == Some("")
    ensures ConvertComponent(name, fullPath, outputDir, Ok(text))
            == Outcome(SavePartialOutput(name, fullPath, outputDir, text).0, None)
  {
  }
}
