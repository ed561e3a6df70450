/** The Angular converter's handling of the model's answer:
    `parseAngularResponse`, `cleanupCode`, and what `convertReactToAngular`
    writes once the answer (or an error) is in. Reading the component,
    building the prompt, the API key and the network call are summed up by
    the answer they produce. */
module AngularClient {
  import opened Wrappers
  import opened Strings
  import opened Sections
  import opened Writer
  import opened AngularWriter
  import PromptSanitizer

  const ComponentMarker := "===COMPONENT==="
  const TemplateMarker := "===TEMPLATE==="
  const Fence := "```"

  /** The message of the `TypeError` raised by `undefined.startsWith(...)`. */
  const UndefinedStartsWith := "Cannot read properties of undefined (reading 'startsWith')"

  /** A string splits into one line exactly when it has no line break. */
  lemma SplitSingle(s: string, sep: string)
    requires |sep| > 0
    ensures |SplitOn(s, sep)| == 1 <==> !Contains(s, sep)
    ensures !Contains(s, sep) ==> SplitOn(s, sep) == [s]
  {
  }

  /** `cleanupCode(code)`. An empty capture gives `null`. Otherwise the
      capture is split into lines; a first line starting with a fence is
      dropped, then a last line starting with a fence is dropped, and the
      rest is joined and trimmed. When the first line was the only one, the
      array is empty by the time the last line is read and the call throws. */
  function CleanupCode(code: string): (r: Result<Option<string>, string>)
    ensures r == Ok(None) <==> code == ""
    ensures r.Err? <==> code != "" && !Contains(code, "\n") && StartsWith(code, Fence)
    ensures r.Err? ==> r.error == UndefinedStartsWith
    ensures r.Ok? && r.value.Some? ==> Trimmed(r.value.value)
  {
    if code == "" then Ok(None)
    else
      var lines := SplitOn(code, "\n");
      SplitSingle(code, "\n");
      var shifted := if StartsWith(lines[0], Fence) then lines[1..] else lines;
      if |shifted| == 0 then Err(UndefinedStartsWith)
      else
        var kept := if StartsWith(shifted[|shifted| - 1], Fence) then shifted[..|shifted| - 1] else shifted;
        Ok(Some(Trim(JoinWith(kept, "\n"))))
  }

  /** A block with both fences on lines of their own, the closing one last,
      comes out as its body, trimmed. */
  lemma CleanupFencedBlock(lang: string, body: string, tail: string)
    requires '\n' !in lang && '\n' !in tail
    ensures CleanupCode((Fence + lang) + "\n" + body + "\n" + (Fence + tail)) == Ok(Some(Trim(body)))
  {
    var a := Fence + lang;
    var c := Fence + tail;
    assert '\n' !in a && '\n' !in c;
    SplitAround(a, body, c);
    var inner := SplitOn(body, "\n");
    var lines := [a] + inner + [c];
    assert lines[0] == a && a[..3] == Fence;
    assert lines[1..] == inner + [c];
    assert (inner + [c])[..|inner|] == inner;
    assert c[..3] == Fence;
    JoinSplit(body, "\n");
  }

  /** A block whose closing fence is followed by a line break keeps the
      fence: the last line is then empty, and only it is looked at. */
  lemma CleanupKeepsFenceBeforeLineBreak(lang: string, body: string)
    requires '\n' !in lang
    ensures CleanupCode((Fence + lang) + "\n" + body + "\n" + Fence + "\n") == Ok(Some(Trim(body + "\n" + Fence)))
    ensures EndsWith(Trim(body + "\n" + Fence), Fence)
  {
    var a := Fence + lang;
    assert '\n' !in a && '\n' !in Fence;
    SplitAroundTrailing(a, body, Fence);
    var inner := SplitOn(body, "\n");
    var lines := [a] + inner + [Fence, ""];
    assert lines[0] == a && a[..3] == Fence;
    assert lines[1..] == inner + [Fence, ""];
    KeptLinesJoin(body);
    TrimSpaceSuffix(body + "\n" + Fence, "\n");
    TrimKeepsEnd(body + "\n" + Fence, Fence);
  }

  /** Joining the body's lines, the closing fence and an empty last line. */
  lemma KeptLinesJoin(body: string)
    ensures JoinWith(SplitOn(body, "\n") + [Fence, ""], "\n") == body + "\n" + Fence + "\n"
  {
    var inner := SplitOn(body, "\n");
    JoinAppend(inner, [Fence, ""], "\n");
    JoinSplit(body, "\n");
    assert JoinWith([Fence, ""], "\n") == Fence + "\n" + "";
  }

  /** Trimming keeps a suffix that starts and ends with no white space. */
  lemma TrimKeepsEnd(s: string, p: string)
    requires EndsWith(s, p) && |p| > 0 && !IsSpace(p[0]) && !IsSpace(p[|p| - 1])
    ensures EndsWith(Trim(s), p)
  {
    var r := Trim(s);
    assert s[|s| - |p|] == p[0];
    assert s[|s| - 1] == p[|p| - 1];
    assert r[|r| - |p|..] == s[|s| - |p|..];
  }

  /** What `parseAngularResponse` returns; `None` stands for `null`. */
  datatype AngularParsed = AngularParsed(component: Option<string>, template: Option<string>)

  /** Both fields are present and non-empty, so the test
      `!parsed.component || !parsed.template` fails. */
  predicate Writable(p: AngularParsed) {
    p.component.Some? && p.component.value != "" && p.template.Some? && p.template.value != ""
  }

  /** `cleanupCode` of a section, `null` when the marker is missing. */
  function CleanSection(section: Option<string>): (r: Result<Option<string>, string>)
    ensures section.None? ==> r == Ok(None)
    ensures section.Some? ==> r == CleanupCode(section.value)
    ensures r == Ok(None) <==> section.None? || section == Some("")
    ensures r.Err? <==> section.Some? && section.value != "" && !Contains(section.value, "\n") && StartsWith(section.value, Fence)
    ensures r.Ok? && r.value.Some? ==> Trimmed(r.value.value)
  {
    if section.None? then Ok(None) else CleanupCode(section.value)
  }

  /** `parseAngularResponse(text)`: the component section runs from the
      component marker (after the white space that follows it) to the
      template marker or the end, the template section from the template
      marker to the end; each goes through `cleanupCode` untrimmed. An
      error thrown by `cleanupCode` propagates. */
  function ParseAngularResponse(text: string): (r: Result<AngularParsed, string>)
    ensures r.Err? <==> CleanSection(Section(text, ComponentMarker, Some(TemplateMarker))).Err?
                        || CleanSection(Section(text, TemplateMarker, None)).Err?
    ensures r.Err? ==> r.error == UndefinedStartsWith
    ensures r.Ok? && !Contains(text, ComponentMarker) ==> r.value.component.None?
    ensures r.Ok? && !Contains(text, TemplateMarker) ==> r.value.template.None?
    ensures r.Ok? && r.value.component.Some? ==> Trimmed(r.value.component.value)
    ensures r.Ok? && r.value.template.Some? ==> Trimmed(r.value.template.value)
  {
    var component := CleanSection(Section(text, ComponentMarker, Some(TemplateMarker)));
    if component.Err? then Err(component.error)
    else
      var template := CleanSection(Section(text, TemplateMarker, None));
      if template.Err? then Err(template.error)
      else Ok(AngularParsed(component.value, template.value))
  }

  lemma MarkerFacts()
    ensures |ComponentMarker| == 15 && ComponentMarker[0] == '='
    ensures |TemplateMarker| == 14 && TemplateMarker[0] == '=' && '\n' !in TemplateMarker
    ensures !Contains(ComponentMarker, TemplateMarker)
  {
    assert TemplateMarker[7] == 'L';
    assert forall i :: 0 <= i < |ComponentMarker| ==> ComponentMarker[i] != 'L';
    NotContainsByChar(ComponentMarker, TemplateMarker, 7);
  }

  /** The answer laid out as the prompt asks passes the marker check. */
  lemma FormattedAngularValid(pre: string, x: string, y: string)
    requires '=' !in pre && !Contains(x, TemplateMarker)
    ensures PromptSanitizer.ValidateAIResponse(Some(Formatted(pre, ComponentMarker, x, TemplateMarker, y)),
                                               [ComponentMarker, TemplateMarker])
  {
    MarkerFacts();
    var t := Formatted(pre, ComponentMarker, x, TemplateMarker, y);
    assert 0 <= IndexOf(t, ComponentMarker) < IndexOf(t, TemplateMarker) by {
      FormattedSections(pre, ComponentMarker, x, TemplateMarker, y);
    }
    TwoInOrder(t, ComponentMarker, TemplateMarker);
  }

  /** Two markers whose first occurrences come in order pass the check. */
  lemma TwoInOrder(t: string, a: string, b: string)
    requires 0 <= IndexOf(t, a) < IndexOf(t, b)
    ensures PromptSanitizer.ValidateAIResponse(Some(t), [a, b])
  {
    var ms := [a, b];
    assert t != "" by {
      assert OccursAt(t, b, IndexOf(t, b));
    }
    assert PromptSanitizer.AllPresent(t, ms);
    assert PromptSanitizer.FirstOccurrencesIncrease(t, ms);
  }

  /** Skipping white space stops at the first character that is none. */
  lemma SkipLineBreak(w: string)
    requires |w| > 0 && !IsSpace(w[0])
    ensures SkipSpace("\n" + w) == w
  {
    LeadingSpaceIs("\n" + w, 1);
  }

  /** The sections of an answer laid out as the prompt asks, before
      `cleanupCode`: the component section keeps the line break in front
      of the template marker. */
  lemma FormattedAngularSections(pre: string, x: string, y: string)
    requires '=' !in pre && !Contains(x, TemplateMarker)
    requires |x| > 0 && !IsSpace(x[0]) && |y| > 0 && !IsSpace(y[0])
    ensures var t := Formatted(pre, ComponentMarker, x, TemplateMarker, y);
            && Section(t, ComponentMarker, Some(TemplateMarker)) == Some(x + "\n")
            && Section(t, TemplateMarker, None) == Some(y)
  {
    MarkerFacts();
    var t := Formatted(pre, ComponentMarker, x, TemplateMarker, y);
    FormattedSections(pre, ComponentMarker, x, TemplateMarker, y);
    assert "\n" + x + "\n" == "\n" + (x + "\n");
    SkipLineBreak(x + "\n");
    SkipLineBreak(y);
  }

  /** Reading back an answer whose two sections are fenced blocks ending in
      the closing fence: the template loses both fences, but the component,
      whose section ends with the line break before the template marker,
      keeps its closing fence. */
  lemma ParseFencedAnswer(pre: string, lang1: string, body1: string, lang2: string, body2: string)
    requires '=' !in pre && '\n' !in lang1 && '\n' !in lang2
    requires !Contains((Fence + lang1) + "\n" + body1 + "\n" + Fence, TemplateMarker)
    ensures var t := Formatted(pre, ComponentMarker, (Fence + lang1) + "\n" + body1 + "\n" + Fence,
                               TemplateMarker, (Fence + lang2) + "\n" + body2 + "\n" + Fence);
            ParseAngularResponse(t) == Ok(AngularParsed(Some(Trim(body1 + "\n" + Fence)), Some(Trim(body2))))
    ensures EndsWith(Trim(body1 + "\n" + Fence), Fence)
  {
    var x := (Fence + lang1) + "\n" + body1 + "\n" + Fence;
    var y := (Fence + lang2) + "\n" + body2 + "\n" + Fence;
    assert x[0] == '`' && y[0] == '`';
    FormattedAngularSections(pre, x, y);
    CleanupKeepsFenceBeforeLineBreak(lang1, body1);
    CleanupFencedBlock(lang2, body2, "");
    assert Fence + "" == Fence;
  }

  /** `convertReactToAngular(component, outputDir)` from the point the
      answer is known. `answer` is the text of the answer, or the message of
      the error thrown while reading the file, building the prompt or
      calling the API. An answer failing the marker check is saved as the
      partial output without being parsed; an error, including one thrown
      by `cleanupCode`, is saved as the partial output and rethrown; an
      answer lacking a non-empty component or template is saved as the
      partial output; otherwise both files are written. */
  function ConvertReactToAngular(name: string, fullPath: string, outputDir: Option<string>,
                                 answer: Result<string, string>): (o: Outcome)
    ensures |o.effects| >= 2 && o.effects[0] == EnsureDir(TargetDir(outputDir, fullPath))
    ensures o.thrown.Some? ==> o.effects == SavePartialAngularOutput(name, fullPath, outputDir, o.thrown.value).0
    ensures answer.Err? ==> o.thrown == Some(answer.error)
    ensures answer.Ok? && !PromptSanitizer.ValidateAIResponse(Some(answer.value), [ComponentMarker, TemplateMarker])
            ==> o == Outcome(SavePartialAngularOutput(name, fullPath, outputDir, answer.value).0, None)
    ensures answer.Ok? && o.thrown.Some? ==> ParseAngularResponse(answer.value).Err?
    ensures |o.effects| == 3 <==>
              && answer.Ok?
              && PromptSanitizer.ValidateAIResponse(Some(answer.value), [ComponentMarker, TemplateMarker])
              && ParseAngularResponse(answer.value).Ok?
              && Writable(ParseAngularResponse(answer.value).value)
    ensures answer.Ok? && PromptSanitizer.ValidateAIResponse(Some(answer.value), [ComponentMarker, TemplateMarker]) ==>
              match ParseAngularResponse(answer.value)
              case Err(e) =>
                o == Outcome(SavePartialAngularOutput(name, fullPath, outputDir, e).0, Some(e))
              case Ok(p) =>
                if Writable(p) then
                  o == Outcome(WriteAngularFiles(name, fullPath, outputDir, p.component.value, p.template.value).effects, None)
                else
                  o == Outcome(SavePartialAngularOutput(name, fullPath, outputDir, answer.value).0, None)
  {
    match answer
    case Err(message) =>
      Outcome(SavePartialAngularOutput(name, fullPath, outputDir, message).0, Some(message))
    case Ok(text) =>
      if !PromptSanitizer.ValidateAIResponse(Some(text), [ComponentMarker, TemplateMarker]) then
        Outcome(SavePartialAngularOutput(name, fullPath, outputDir, text).0, None)
      else
        match ParseAngularResponse(text)
        case Err(message) =>
          Outcome(SavePartialAngularOutput(name, fullPath, outputDir, message).0, Some(message))
        case Ok(parsed) =>
          if !Writable(parsed) then
            Outcome(SavePartialAngularOutput(name, fullPath, outputDir, text).0, None)
          else
            Outcome(WriteAngularFiles(name, fullPath, outputDir, parsed.component.value, parsed.template.value).effects, None)
  }

  /** A well-laid-out answer of two fenced blocks with non-blank bodies
      writes the component with its closing fence still attached and the
      template without fences. */
  lemma ConvertFencedAnswer(name: string, fullPath: string, outputDir: Option<string>,
                            pre: string, lang1: string, body1: string, lang2: string, body2: string)
    requires '=' !in pre && '\n' !in lang1 && '\n' !in lang2 && Trim(body2) != ""
    requires !Contains((Fence + lang1) + "\n" + body1 + "\n" + Fence, TemplateMarker)
    ensures var t := Formatted(pre, ComponentMarker, (Fence + lang1) + "\n" + body1 + "\n" + Fence,
                               TemplateMarker, (Fence + lang2) + "\n" + body2 + "\n" + Fence);
            ConvertReactToAngular(name, fullPath, outputDir, Ok(t))
            == Outcome(WriteAngularFiles(name, fullPath, outputDir, Trim(body1 + "\n" + Fence), Trim(body2)).effects, None)
  {
    var x := (Fence + lang1) + "\n" + body1 + "\n" + Fence;
    var y := (Fence + lang2) + "\n" + body2 + "\n" + Fence;
    assert x[0] == '`' && y[0] == '`';
    FormattedAngularValid(pre, x, y);
    ParseFencedAnswer(pre, lang1, body1, lang2, body2);
    assert Trim(body1 + "\n" + Fence) != "";
  }

  /** A template section that is a single fence line makes `cleanupCode`
      throw: the message is saved as the partial output and rethrown. */
  lemma FenceOnlyTemplateThrows(name: string, fullPath: string, outputDir: Option<string>,
                                pre: string, x: string, lang: string)
    requires '=' !in pre && !Contains(x, TemplateMarker) && |x| > 0 && !IsSpace(x[0])
    requires '\n' !in lang && CleanupCode(x + "\n").Ok?
    ensures var t := Formatted(pre, ComponentMarker, x, TemplateMarker, Fence + lang);
            ConvertReactToAngular(name, fullPath, outputDir, Ok(t))
            == Outcome(SavePartialAngularOutput(name, fullPath, outputDir, UndefinedStartsWith).0, Some(UndefinedStartsWith))
  {
    var y := Fence + lang;
    var t := Formatted(pre, ComponentMarker, x, TemplateMarker, y);
    assert y[0] == '`' && y[..3] == Fence;
    assert Section(t, TemplateMarker, None) == Some(y) by {
      FormattedAngularSections(pre, x, y);
    }
    assert PromptSanitizer.ValidateAIResponse(Some(t), [ComponentMarker, TemplateMarker]) by {
      FormattedAngularValid(pre, x, y);
    }
    assert CleanupCode(y).Err? by {
      NotContainsByChar(y, "\n", 0);
    }
    assert ParseAngularResponse(t) == Err(UndefinedStartsWith);
  }

  /** An empty component section is `null` here, where the React Native
      parser gives the empty string: the answer is saved as the partial
      output. */
  lemma EmptyComponentSectionIsNull(pre: string, y: string)
    requires '=' !in pre && |y| > 0 && !IsSpace(y[0])
    ensures var t := Formatted(pre, ComponentMarker, "", TemplateMarker, y);
            ParseAngularResponse(t).Ok? ==> ParseAngularResponse(t).value.component.None?
  {
    MarkerFacts();
    var t := Formatted(pre, ComponentMarker, "", TemplateMarker, y);
    FormattedSections(pre, ComponentMarker, "", TemplateMarker, y);
    LeadingSpaceIs("\n" + "" + "\n", 2);
  }
}
