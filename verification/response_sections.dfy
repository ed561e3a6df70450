/** The section extraction both converters apply to the model's answer: the
    regular expression `open\s*([\s\S]*?)(?:close|$)` without flags, run with
    `String.prototype.match`. The match starts at the first occurrence of
    `open`, the greedy `\s*` skips all white space after it, and the lazy
    group stops at the first `close` from there on, or at the end of the
    text (`$` without the `m` flag). A section without a closing marker is
    the same expression without the `close` alternative. */
module Sections {
  import opened Wrappers
  import opened Strings

  /** Where the captured group starts and ends in the text. */
  datatype Span = Span(start: nat, end: nat)

  /** Where the lazy group stops when it starts at `from`: the first
      occurrence of `close` at or after `from`, else the end of the text. */
  function SectionEnd(text: string, close: Option<string>, from: nat): (e: nat)
    requires from <= |text|
    ensures from <= e <= |text|
    ensures e == |text| || (close.Some? && OccursAt(text, close.value, e))
    ensures close.Some? ==> forall i :: from <= i < e ==> !OccursAt(text, close.value, i)
  {
    if close.None? then |text|
    else
      var k := IndexOfFrom(text, close.value, from);
      if k < 0 then |text| else k
  }

  /** The span of group 1, or `None` when `open` does not occur and `match`
      returns `null`. */
  function Capture(text: string, open: string, close: Option<string>): (r: Option<Span>)
    ensures r.None? <==> !Contains(text, open)
    ensures r.Some? ==>
              && IndexOf(text, open) + |open| <= r.value.start <= r.value.end <= |text|
              && AllSpace(text[IndexOf(text, open) + |open|..r.value.start])
              && (r.value.start < |text| ==> !IsSpace(text[r.value.start]))
              && (r.value.end == |text| || (close.Some? && OccursAt(text, close.value, r.value.end)))
              && (close.Some? ==> forall i :: r.value.start <= i < r.value.end ==> !OccursAt(text, close.value, i))
  {
    var k := IndexOf(text, open);
    if k < 0 then None
    else
      var after := k + |open|;
      var n := LeadingSpaceCount(text[after..]);
      assert text[after..after + n] == text[after..][..n];
      assert after + n < |text| ==> text[after + n] == text[after..][n];
      Some(Span(after + n, SectionEnd(text, close, after + n)))
  }

  /** The text of group 1. */
  function Section(text: string, open: string, close: Option<string>): (r: Option<string>)
    ensures r.None? <==> !Contains(text, open)
    ensures r.Some? ==> |r.value| == 0 || !IsSpace(r.value[0])
  {
    var c := Capture(text, open, close);
    if c.None? then None
    else
      var t := text[c.value.start..c.value.end];
      assert |t| > 0 ==> t[0] == text[c.value.start];
      Some(t)
  }

  /** The section never contains its closing marker. */
  lemma SectionStopsAtClose(text: string, open: string, close: string)
    requires Contains(text, open) && |close| > 0
    ensures !Contains(Section(text, open, Some(close)).value, close)
  {
    var c := Capture(text, open, Some(close)).value;
    var t := text[c.start..c.end];
    if Contains(t, close) {
      var i := IndexOf(t, close);
      OccursInSlice(text, c.start, c.end, close, i);
    }
  }

  /** A run of white space from `a` to `b` does not reach past a
      character that is no white space. */
  lemma SpaceRunStops(s: string, a: nat, b: nat, e: nat)
    requires a <= b <= |s| && AllSpace(s[a..b])
    requires a <= e < |s| && !IsSpace(s[e])
    ensures b <= e
  {
  }

  /** An occurrence in a slice is an occurrence in the whole string. */
  lemma OccursInSlice(s: string, a: nat, b: nat, p: string, i: int)
    requires a <= b <= |s| && OccursAt(s[a..b], p, i)
    ensures OccursAt(s, p, a + i)
  {
    var t := s[a..b];
    forall q | 0 <= q < |p|
      ensures s[a + i + q] == p[q]
    {
      OccursCharAt(t, p, i, i + q);
      assert t[i + q] == s[a + i + q];
    }
    assert s[a + i..a + i + |p|] == p;
  }

  /** No occurrence of `p` covers a position holding a character `p` does
      not contain. */
  lemma NoOccurrenceOver(s: string, p: string, i: int, j: int)
    requires 0 <= j < |s| && s[j] !in p && i <= j < i + |p|
    ensures !OccursAt(s, p, i)
  {
    if OccursAt(s, p, i) {
      OccursCharAt(s, p, i, j);
    }
  }

  /** The section is fixed by where `open` first occurs and where the first
      `close` after it sits: it is the text between them without its
      leading white space. A closing marker that started with white space
      could be swallowed by `\s*`; the markers start with `=`. */
  lemma SectionIs(text: string, open: string, close: string, k: nat, e: nat)
    requires OccursAt(text, open, k) && forall i :: 0 <= i < k ==> !OccursAt(text, open, i)
    requires k + |open| <= e && OccursAt(text, close, e) && |close| > 0 && !IsSpace(close[0])
    requires forall i :: k + |open| <= i < e ==> !OccursAt(text, close, i)
    ensures Section(text, open, Some(close)) == Some(SkipSpace(text[k + |open|..e]))
  {
    IndexOfIs(text, open, k);
    var after := k + |open|;
    var c := Capture(text, open, Some(close)).value;
    OccursCharAt(text, close, e, e);
    SpaceRunStops(text, after, c.start, e);
    assert c.end == e;
    var w := text[after..e];
    assert w[..c.start - after] == text[after..c.start];
    assert c.start < e ==> w[c.start - after] == text[c.start];
    LeadingSpaceIs(w, c.start - after);
    assert w[c.start - after..] == text[c.start..e];
  }

  /** The same for a section that runs to the end of the text. */
  lemma SectionToEndIs(text: string, open: string, k: nat)
    requires OccursAt(text, open, k) && forall i :: 0 <= i < k ==> !OccursAt(text, open, i)
    ensures Section(text, open, None) == Some(SkipSpace(text[k + |open|..]))
  {
    IndexOfIs(text, open, k);
    var after := k + |open|;
    var c := Capture(text, open, None).value;
    var w := text[after..];
    assert w[..c.start - after] == text[after..c.start];
    assert c.start < |text| ==> w[c.start - after] == text[c.start];
    LeadingSpaceIs(w, c.start - after);
    assert w[c.start - after..] == text[c.start..];
    assert text[c.start..c.end] == text[c.start..];
  }

  /** An answer laid out as the prompts ask: some preamble, the opening
      marker, the first section, the closing marker, the second section,
      each on lines of their own. */
  function Formatted(pre: string, open: string, x: string, close: string, y: string): string {
    pre + open + "\n" + x + "\n" + close + "\n" + y
  }

  /** Where the parts of a formatted answer sit. */
  lemma FormattedLayout(pre: string, open: string, x: string, close: string, y: string)
    ensures var t := Formatted(pre, open, x, close, y);
            && |t| == |pre| + |open| + |x| + 2 + |close| + 1 + |y|
            && t[..|pre|] == pre
            && OccursAt(t, open, |pre|)
            && t[|pre| + |open|..|pre| + |open| + |x| + 2] == "\n" + x + "\n"
            && OccursAt(t, close, |pre| + |open| + |x| + 2)
            && t[|pre| + |open| + |x| + 2 + |close|..] == "\n" + y
  {
    var t := Formatted(pre, open, x, close, y);
    var e := |pre| + |open| + |x| + 2;
    var a := pre + open;
    var b := "\n" + x + "\n";
    var c := close + "\n" + y;
    assert t == a + b + c;
    assert t[..|pre|] == pre;
    assert t[|pre|..|pre| + |open|] == open;
    assert t[|a|..e] == b;
    assert t[e..] == c;
    assert t[e..e + |close|] == close;
    assert t[e + |close|..] == "\n" + y;
  }

  /** An occurrence of `p` lying inside a copy of `w` would be one in `w`. */
  lemma NoOccurrenceInside(t: string, lo: nat, w: string, p: string, i: int)
    requires lo + |w| <= |t| && t[lo..lo + |w|] == w && !Contains(w, p)
    requires lo <= i && i + |p| <= lo + |w|
    ensures !OccursAt(t, p, i)
  {
    if OccursAt(t, p, i) {
      forall q | 0 <= q < |p|
        ensures w[i - lo + q] == p[q]
      {
        OccursCharAt(t, p, i, i + q);
        assert t[lo..lo + |w|][i - lo + q] == t[i + q];
      }
      assert w[i - lo..i - lo + |p|] == p;
      ContainsAt(w, p, i - lo);
    }
  }

  /** No occurrence of `p` starts where the text lacks `p`'s first
      character. */
  lemma NoOccurrenceFrom(t: string, p: string, i: int)
    requires 0 <= i < |t| && |p| > 0 && t[i] != p[0]
    ensures !OccursAt(t, p, i)
  {
    if OccursAt(t, p, i) {
      OccursCharAt(t, p, i, i);
    }
  }

  /** In such a laid-out text no closing marker starts before the laid-out
      one. */
  lemma LaidOutNoClose(t: string, np: nat, open: string, x: string, close: string)
    requires |open| > 0 && |close| > 0 && '\n' !in close
    requires !Contains(open, close) && !Contains(x, close)
    requires np <= |t| && forall i :: 0 <= i < np ==> t[i] != close[0]
    requires OccursAt(t, open, np) && np + |open| < |t| && t[np + |open|] == '\n'
    requires np + |open| + |x| + 2 <= |t|
    requires t[np + |open| + 1..np + |open| + 1 + |x|] == x && t[np + |open| + 1 + |x|] == '\n'
    ensures forall i :: 0 <= i < np + |open| + |x| + 2 ==> !OccursAt(t, close, i)
  {
    var h := np + |open| + 1;
    forall i | 0 <= i < h + |x| + 1
      ensures !OccursAt(t, close, i)
    {
      if i < np {
        NoOccurrenceFrom(t, close, i);
      } else if i + |close| <= np + |open| {
        NoOccurrenceInside(t, np, open, close, i);
      } else if i < h {
        NoOccurrenceOver(t, close, i, h - 1);
      } else if i + |close| <= h + |x| {
        NoOccurrenceInside(t, h, x, close, i);
      } else {
        NoOccurrenceOver(t, close, i, h + |x|);
      }
    }
  }

  /** The two sections of a text laid out as `open`, line break, `x`, line
      break, `close`, line break, `y` after a preamble of length `np`,
      under the conditions that make the laid-out markers the first ones. */
  lemma LaidOutSections(t: string, np: nat, open: string, x: string, close: string, y: string, e: nat)
    requires |open| > 0 && |close| > 0 && '\n' !in close && !IsSpace(close[0])
    requires !Contains(open, close) && !Contains(x, close)
    requires np <= |t| && forall i :: 0 <= i < np ==> t[i] != open[0] && t[i] != close[0]
    requires e == np + |open| + |x| + 2 && e + |close| <= |t|
    requires OccursAt(t, open, np) && t[np + |open|..e] == "\n" + x + "\n"
    requires OccursAt(t, close, e) && t[e + |close|..] == "\n" + y
    ensures Section(t, open, Some(close)) == Some(SkipSpace("\n" + x + "\n"))
    ensures Section(t, close, None) == Some(SkipSpace("\n" + y))
    ensures IndexOf(t, open) == np && IndexOf(t, close) == e
  {
    forall i | 0 <= i < np
      ensures !OccursAt(t, open, i)
    {
      NoOccurrenceFrom(t, open, i);
    }
    var w := t[np + |open|..e];
    assert t[np + |open|] == w[0];
    assert w[1..|w| - 1] == x;
    forall q | 0 <= q < |x|
      ensures t[np + |open| + 1 + q] == x[q]
    {
      assert t[np + |open| + 1 + q] == w[1 + q];
    }
    assert t[np + |open| + 1..e - 1] == x;
    assert t[e - 1] == w[|w| - 1];
    LaidOutNoClose(t, np, open, x, close);
    SectionIs(t, open, close, np, e);
    SectionToEndIs(t, close, e);
    IndexOfIs(t, close, e);
  }

  /** Reading a formatted answer back: the first section is the text laid
      out between the markers and the second the text after the closing
      marker, each without the white space `\s*` skips. */
  lemma FormattedSections(pre: string, open: string, x: string, close: string, y: string)
    requires |open| > 0 && open[0] !in pre
    requires |close| > 0 && close[0] !in pre && '\n' !in close && !IsSpace(close[0])
    requires !Contains(open, close) && !Contains(x, close)
    ensures Section(Formatted(pre, open, x, close, y), open, Some(close)) == Some(SkipSpace("\n" + x + "\n"))
    ensures Section(Formatted(pre, open, x, close, y), close, None) == Some(SkipSpace("\n" + y))
    ensures IndexOf(Formatted(pre, open, x, close, y), open) == |pre|
    ensures IndexOf(Formatted(pre, open, x, close, y), close) == |pre| + |open| + |x| + 2
  {
    var t := Formatted(pre, open, x, close, y);
    FormattedLayout(pre, open, x, close, y);
    forall i | 0 <= i < |pre|
      ensures t[i] != open[0] && t[i] != close[0]
    {
      assert t[i] == t[..|pre|][i];
    }
    LaidOutSections(t, |pre|, open, x, close, y, |pre| + |open| + |x| + 2);
  }
}
