/** src/utils/prompt-sanitizer.js: the defences against prompt injection
    through user code. Escaping forbidden markers, wrapping code in
    `<USER_CODE>` delimiters, checking that a generated response carries its
    section markers in order, and stripping markers from display names.

    The main result is `EscapeMarkersSound`: after escaping, every occurrence of
    a forbidden marker sits directly inside `[ESCAPED:` ... `]`. The module
    is standalone: neither prompt builder routes content through it. */
module PromptSanitizer {
  import opened Wrappers
  import opened Strings

  /** FORBIDDEN_MARKERS, in the source's order. */
  const ForbiddenMarkers: seq<string> := [
    "===COMPONENT===",
    "===STYLES===",
    "===TEMPLATE===",
    "{{HTML_CONTENT}}",
    "{{SCSS_CONTENT}}",
    "{{TS_CONTENT}}",
    "{{TSX_CONTENT}}",
    "{{COMPONENT_NAME}}",
    "{{COMPONENT_MAPPINGS}}",
    "{{DEPENDENCY_MAPPINGS}}"
  ]

  const EscapeOpen: string := "[ESCAPED:"

  /** The escaped form `[ESCAPED:marker]` that replaces a marker. */
  function Escape(m: string): string {
    EscapeOpen + m + "]"
  }

  // ---------------------------------------------------------------------
  // The shape of a marker
  // ---------------------------------------------------------------------

  predicate NameChar(c: char) {
    'A' <= c <= 'Z' || c == '_'
  }

  predicate AllNameChars(s: string) {
    forall i :: 0 <= i < |s| ==> NameChar(s[i])
  }

  /** `===NAME===`, a response section marker. */
  predicate SectionMarker(m: string) {
    && |m| >= 7
    && m[..3] == "==="
    && m[|m| - 3..] == "==="
    && AllNameChars(m[3..|m| - 3])
  }

  /** `{{NAME}}`, a template placeholder. */
  predicate Placeholder(m: string) {
    && |m| >= 5
    && m[..2] == "{{"
    && m[|m| - 2..] == "}}"
    && AllNameChars(m[2..|m| - 2])
  }

  predicate WellFormedMarker(m: string) {
    SectionMarker(m) || Placeholder(m)
  }

  lemma ForbiddenMarkersWellFormed()
    ensures forall m :: m in ForbiddenMarkers ==> WellFormedMarker(m)
  {
    SectionMarkersWellFormed();
    ContentPlaceholdersWellFormed();
    NamePlaceholdersWellFormed();
  }

  lemma SectionMarkersWellFormed()
    ensures forall k :: 0 <= k < 3 ==> SectionMarker(ForbiddenMarkers[k])
  {
    assert SectionMarker(ForbiddenMarkers[0]) by { SectionByChars(ForbiddenMarkers[0]); }
    assert SectionMarker(ForbiddenMarkers[1]) by { SectionByChars(ForbiddenMarkers[1]); }
    assert SectionMarker(ForbiddenMarkers[2]) by { SectionByChars(ForbiddenMarkers[2]); }
  }

  lemma ContentPlaceholdersWellFormed()
    ensures forall k :: 3 <= k < 7 ==> Placeholder(ForbiddenMarkers[k])
  {
    assert Placeholder(ForbiddenMarkers[3]) by { PlaceholderByChars(ForbiddenMarkers[3]); }
    assert Placeholder(ForbiddenMarkers[4]) by { PlaceholderByChars(ForbiddenMarkers[4]); }
    assert Placeholder(ForbiddenMarkers[5]) by { PlaceholderByChars(ForbiddenMarkers[5]); }
    assert Placeholder(ForbiddenMarkers[6]) by { PlaceholderByChars(ForbiddenMarkers[6]); }
  }

  lemma NamePlaceholdersWellFormed()
    ensures forall k :: 7 <= k < 10 ==> Placeholder(ForbiddenMarkers[k])
  {
    assert Placeholder(ForbiddenMarkers[7]) by { PlaceholderByChars(ForbiddenMarkers[7]); }
    assert Placeholder(ForbiddenMarkers[8]) by { PlaceholderByChars(ForbiddenMarkers[8]); }
    assert Placeholder(ForbiddenMarkers[9]) by { PlaceholderByChars(ForbiddenMarkers[9]); }
  }

  /** A section marker, checked character by character. */
  lemma SectionByChars(m: string)
    requires |m| >= 7 && m[0] == m[1] == m[2] == '=' && m[|m| - 3] == m[|m| - 2] == m[|m| - 1] == '='
    requires forall i :: 3 <= i < |m| - 3 ==> NameChar(m[i])
    ensures SectionMarker(m)
  {
    assert m[..3] == "===" && m[|m| - 3..] == "===";
    var inner := m[3..|m| - 3];
    forall i | 0 <= i < |inner|
      ensures NameChar(inner[i])
    {
      assert inner[i] == m[i + 3];
    }
  }

  /** A placeholder, checked character by character. */
  lemma PlaceholderByChars(m: string)
    requires |m| >= 5 && m[0] == m[1] == '{' && m[|m| - 2] == m[|m| - 1] == '}'
    requires forall i :: 2 <= i < |m| - 2 ==> NameChar(m[i])
    ensures Placeholder(m)
  {
    assert m[..2] == "{{" && m[|m| - 2..] == "}}";
    var inner := m[2..|m| - 2];
    forall i | 0 <= i < |inner|
      ensures NameChar(inner[i])
    {
      assert inner[i] == m[i + 2];
    }
  }

  /** Where `=` can appear in a section marker: only in its two delimiters. */
  lemma SectionShape(m: string)
    requires SectionMarker(m)
    ensures forall i :: 0 <= i < |m| ==> (m[i] == '=' <==> (i < 3 || i >= |m| - 3))
    ensures forall i :: 0 <= i < |m| ==> m[i] != '{' && m[i] != '}' && m[i] != '[' && m[i] != ']'
  {
    forall i | 0 <= i < |m|
      ensures m[i] == '=' <==> (i < 3 || i >= |m| - 3)
      ensures m[i] != '{' && m[i] != '}' && m[i] != '[' && m[i] != ']'
    {
      if i < 3 {
        assert m[..3][i] == m[i];
      } else if i >= |m| - 3 {
        assert m[|m| - 3..][i - (|m| - 3)] == m[i];
      } else {
        assert m[3..|m| - 3][i - 3] == m[i];
      }
    }
  }

  /** Where braces can appear in a placeholder: only in its two delimiters. */
  lemma PlaceholderShape(m: string)
    requires Placeholder(m)
    ensures forall i :: 0 <= i < |m| ==> (m[i] == '{' <==> i < 2)
    ensures forall i :: 0 <= i < |m| ==> (m[i] == '}' <==> i >= |m| - 2)
    ensures forall i :: 0 <= i < |m| ==> m[i] != '=' && m[i] != '[' && m[i] != ']'
  {
    forall i | 0 <= i < |m|
      ensures m[i] == '{' <==> i < 2
      ensures m[i] == '}' <==> i >= |m| - 2
      ensures m[i] != '=' && m[i] != '[' && m[i] != ']'
    {
      if i < 2 {
        assert m[..2][i] == m[i];
      } else if i >= |m| - 2 {
        assert m[|m| - 2..][i - (|m| - 2)] == m[i];
      } else {
        assert m[2..|m| - 2][i - 2] == m[i];
      }
    }
  }

  /** The characters of a marker that matter for escaping: no square
      brackets anywhere, and neither end is a character of `[ESCAPED:`. */
  lemma MarkerChars(m: string)
    requires WellFormedMarker(m)
    ensures '[' !in m && ']' !in m
    ensures |m| > 0 && m[0] !in EscapeOpen && m[|m| - 1] !in EscapeOpen
  {
    if SectionMarker(m) {
      SectionShape(m);
    } else {
      PlaceholderShape(m);
    }
  }

  /** No forbidden-style marker occurs inside another one. */
  lemma MarkerInMarker(w: string, m: string, j: int)
    requires WellFormedMarker(w) && WellFormedMarker(m)
    requires OccursAt(m, w, j)
    ensures w == m && j == 0
  {
    OccursCharAt(m, w, j, j);
    if SectionMarker(m) {
      SectionShape(m);
      if Placeholder(w) {
        PlaceholderShape(w);
        assert false;
      }
      SectionShape(w);
      OccursCharAt(m, w, j, j + 2);
      OccursCharAt(m, w, j, j + 3);
      assert j == 0;
      OccursCharAt(m, w, j, |w| - 3);
      assert |w| == |m|;
      assert m[0..|m|] == m;
    } else {
      PlaceholderShape(m);
      if SectionMarker(w) {
        SectionShape(w);
        assert false;
      }
      PlaceholderShape(w);
      OccursCharAt(m, w, j, j + 1);
      assert j == 0;
      OccursCharAt(m, w, j, |w| - 2);
      assert |w| == |m|;
      assert m[0..|m|] == m;
    }
  }

  /** An occurrence of `w` in `x + e + z`, where `e` opens with a character
      `w` lacks and closes with another, lies wholly in one of the three. */
  lemma Straddle(x: string, e: string, z: string, w: string, j: int, open: char, close: char)
    requires |e| >= 2 && e[0] == open && e[|e| - 1] == close
    requires open !in w && close !in w
    requires OccursAt(x + e + z, w, j)
    ensures || j + |w| <= |x|
            || (|x| <= j && j + |w| <= |x| + |e|)
            || |x| + |e| <= j
  {
    var t := x + e + z;
    if j < |x| < j + |w| {
      OccursCharAt(t, w, j, |x|);
      assert false;
    }
    if |x| <= j < |x| + |e| < j + |w| {
      OccursCharAt(t, w, j, |x| + |e| - 1);
      assert false;
    }
  }

  /** Inside `[ESCAPED:m]` the only marker occurrence is `m` itself, right
      after the opening. */
  lemma MarkerInEscape(w: string, m: string, o: int)
    requires WellFormedMarker(w) && WellFormedMarker(m)
    requires OccursAt(Escape(m), w, o)
    ensures w == m && o == |EscapeOpen|
  {
    var e := Escape(m);
    MarkerChars(w);
    if o < |EscapeOpen| {
      OccursCharAt(e, w, o, o);
      assert false;
    }
    if o + |w| == |e| {
      OccursCharAt(e, w, o, |e| - 1);
      assert false;
    }
    assert e[o..o + |w|] == m[o - |EscapeOpen|..o - |EscapeOpen| + |w|];
    MarkerInMarker(w, m, o - |EscapeOpen|);
  }

  /** An occurrence of `w` in `x + e + z` wholly inside `x`. */
  lemma InHead(x: string, e: string, z: string, w: string, j: int)
    requires OccursAt(x + e + z, w, j) && j + |w| <= |x|
    ensures OccursAt(x, w, j)
  {
    assert x + e + z == x + (e + z);
    OccursInLeft(x, e + z, w, j);
  }

  /** An occurrence of `w` in `x + e + z` wholly inside `e`. */
  lemma InMiddle(x: string, e: string, z: string, w: string, j: int)
    requires OccursAt(x + e + z, w, j) && |x| <= j && j + |w| <= |x| + |e|
    ensures OccursAt(e, w, j - |x|)
  {
    assert x + e + z == x + (e + z);
    OccursInRight(x, e + z, w, j);
    OccursInLeft(e, z, w, j - |x|);
  }

  /** An occurrence of `w` in `x + e + z` wholly inside `z`. */
  lemma InTail(x: string, e: string, z: string, w: string, j: int)
    requires OccursAt(x + e + z, w, j) && |x| + |e| <= j
    ensures OccursAt(z, w, j - |x| - |e|)
  {
    OccursInRight(x + e, z, w, j);
  }

  // ---------------------------------------------------------------------
  // Escaped occurrences
  // ---------------------------------------------------------------------

  /** The occurrence of `w` at `j` in `t` sits directly between `[ESCAPED:`
      and `]`. */
  predicate EscapedAt(t: string, w: string, j: int) {
    && |EscapeOpen| <= j
    && j + |w| < |t|
    && t[j - |EscapeOpen|..j] == EscapeOpen
    && t[j + |w|] == ']'
  }

  /** No bare occurrence of `w` in `t`: every one is escaped. */
  predicate NoBareMarker(t: string, w: string) {
    forall j :: 0 <= j <= |t| && OccursAt(t, w, j) ==> EscapedAt(t, w, j)
  }

  /** The marker inserted by one escaping step is escaped. */
  lemma EscapedInserted(x: string, m: string, z: string)
    ensures EscapedAt(x + Escape(m) + z, m, |x| + |EscapeOpen|)
  {
    var e := Escape(m);
    var t := x + e + z;
    var j := |x| + |EscapeOpen|;
    assert t[|x|..|x| + |e|] == e;
    assert t[j - |EscapeOpen|..j] == e[..|EscapeOpen|];
    assert t[j + |m|] == e[|e| - 1];
  }

  lemma EscapedAtExtendLeft(a: string, z: string, w: string, i: int)
    requires EscapedAt(z, w, i)
    ensures EscapedAt(a + z, w, i + |a|)
  {
    assert (a + z)[i + |a| - |EscapeOpen|..i + |a|] == z[i - |EscapeOpen|..i];
  }

  lemma EscapedAtExtendRight(x: string, b: string, w: string, j: int)
    requires EscapedAt(x, w, j)
    ensures EscapedAt(x + b, w, j)
  {
    assert (x + b)[j - |EscapeOpen|..j] == x[j - |EscapeOpen|..j];
  }

  /** The text before the first occurrence of `m` does not contain `m`. */
  lemma BeforeFirstOccurrence(s: string, m: string)
    requires |m| > 0 && Contains(s, m)
    ensures IndexOf(s, m) <= |s| && !Contains(s[..IndexOf(s, m)], m)
  {
    var k := IndexOf(s, m);
    if Contains(s[..k], m) {
      var i := IndexOf(s[..k], m);
      assert s[..k][i..i + |m|] == s[i..i + |m|];
      assert OccursAt(s, m, i);
      assert false;
    }
  }

  /** `s` cut around its first occurrence of `m`: `s == x + m + y` and
      escaping `m` in `s` gives `x + Escape(m) + ` (escaping in `y`). */
  lemma CutAtFirst(s: string, m: string)
    requires |m| > 0 && Contains(s, m)
    ensures var k := IndexOf(s, m);
            && s == s[..k] + m + s[k + |m|..]
            && ReplaceAll(s, m, Escape(m)) == s[..k] + Escape(m) + ReplaceAll(s[k + |m|..], m, Escape(m))
            && !Contains(s[..k], m)
            && |s[k + |m|..]| < |s|
  {
    var k := IndexOf(s, m);
    assert s[k..k + |m|] == m;
    assert s == s[..k] + s[k..k + |m|] + s[k + |m|..];
    ReplaceAllFirst(s, m, Escape(m));
    BeforeFirstOccurrence(s, m);
  }

  /** One replacement step for `m` itself: an occurrence of `m` in
      `x + Escape(m) + z` is the inserted one or an escaped one of `z`. */
  lemma CoversStep(x: string, m: string, z: string, j: int)
    requires WellFormedMarker(m) && !Contains(x, m) && NoBareMarker(z, m)
    requires OccursAt(x + Escape(m) + z, m, j)
    ensures EscapedAt(x + Escape(m) + z, m, j)
  {
    var e := Escape(m);
    MarkerChars(m);
    Straddle(x, e, z, m, j, '[', ']');
    NotInHead(x, e, z, m, j);
    if j < |x| + |e| {
      InMiddle(x, e, z, m, j);
      MarkerInEscape(m, m, j - |x|);
      EscapedInserted(x, m, z);
    } else {
      KeepsTail(x, e, z, m, j);
    }
  }

  /** Escaping `m` leaves no bare `m`, whatever the input. */
  lemma {:induction false} EscapingCoversMarker(s: string, m: string)
    requires WellFormedMarker(m)
    ensures NoBareMarker(ReplaceAll(s, m, Escape(m)), m)
    decreases |s|
  {
    var t := ReplaceAll(s, m, Escape(m));
    MarkerChars(m);
    if Contains(s, m) {
      var k := IndexOf(s, m);
      var x, y := s[..k], s[k + |m|..];
      CutAtFirst(s, m);
      EscapingCoversMarker(y, m);
      forall j | 0 <= j <= |t| && OccursAt(t, m, j)
        ensures EscapedAt(t, m, j)
      {
        CoversStep(x, m, ReplaceAll(y, m, Escape(m)), j);
      }
    }
  }

  /** A character inside an `[ESCAPED:` window is a character of it. */
  lemma WindowChar(s: string, p: int, q: int)
    requires |EscapeOpen| <= p <= |s| && s[p - |EscapeOpen|..p] == EscapeOpen
    ensures p - |EscapeOpen| <= q < p ==> s[q] in EscapeOpen
  {
    if p - |EscapeOpen| <= q < p {
      assert s[p - |EscapeOpen|..p][q - (p - |EscapeOpen|)] == s[q];
    }
  }

  /** An occurrence in the remainder after `m` is preceded there by a whole
      `[ESCAPED:` too, since `m` cannot end in part of that opening. */
  lemma EscapedInSuffix(x: string, m: string, y: string, w: string, i: int)
    requires WellFormedMarker(m)
    requires OccursAt(y, w, i)
    requires EscapedAt(x + m + y, w, i + |x| + |m|)
    ensures EscapedAt(y, w, i)
  {
    var s := x + m + y;
    var p := i + |x| + |m|;
    MarkerChars(m);
    assert s[|x| + |m| - 1] == m[|m| - 1];
    WindowChar(s, p, |x| + |m| - 1);
    SliceOfRight(x + m, y, p - |EscapeOpen|, p);
    assert y[i + |w|] == s[p + |w|];
  }

  /** The remainder after an occurrence of `m` has no bare `w` when the
      whole had none. */
  lemma NoBareInSuffix(x: string, m: string, y: string, w: string)
    requires WellFormedMarker(m)
    requires NoBareMarker(x + m + y, w)
    ensures NoBareMarker(y, w)
  {
    forall i | 0 <= i <= |y| && OccursAt(y, w, i)
      ensures EscapedAt(y, w, i)
    {
      OccursExtendLeft(x + m, y, w, i);
      assert x + m + y == (x + m) + y;
      EscapedInSuffix(x, m, y, w, i);
    }
  }

  /** One replacement step for another marker `w`: an occurrence of `w` in
      `x + Escape(m) + z` lies in `x`, where it was escaped already and
      stays so, or in `z`. */
  lemma KeepsStep(x: string, m: string, y: string, z: string, w: string, j: int)
    requires WellFormedMarker(m) && WellFormedMarker(w) && w != m
    requires NoBareMarker(x + m + y, w) && NoBareMarker(z, w)
    requires OccursAt(x + Escape(m) + z, w, j)
    ensures EscapedAt(x + Escape(m) + z, w, j)
  {
    var e := Escape(m);
    MarkerChars(w);
    Straddle(x, e, z, w, j, '[', ']');
    NotInMiddle(x, m, z, w, j);
    if j + |w| <= |x| {
      KeepsHead(x, m, y, e, z, w, j);
    } else {
      KeepsTail(x, e, z, w, j);
    }
  }

  /** A text lacking `w` holds no occurrence of it in `x + e + z` wholly
      inside `x`. */
  lemma NotInHead(x: string, e: string, z: string, w: string, j: int)
    requires !Contains(x, w) && OccursAt(x + e + z, w, j)
    ensures |x| < j + |w|
  {
    if j + |w| <= |x| {
      InHead(x, e, z, w, j);
      NotContainsAt(x, w, j);
    }
  }

  /** A marker other than `m` does not occur inside `[ESCAPED:m]`. */
  lemma NotInMiddle(x: string, m: string, z: string, w: string, j: int)
    requires WellFormedMarker(m) && WellFormedMarker(w) && w != m
    requires OccursAt(x + Escape(m) + z, w, j)
    ensures !(|x| <= j && j + |w| <= |x| + |Escape(m)|)
  {
    if |x| <= j && j + |w| <= |x| + |Escape(m)| {
      InMiddle(x, Escape(m), z, w, j);
      MarkerInEscape(w, m, j - |x|);
    }
  }

  /** An occurrence wholly inside `x`, escaped in `x + m + y`, stays
      escaped in `x + e + z`. */
  lemma KeepsHead(x: string, m: string, y: string, e: string, z: string, w: string, j: int)
    requires WellFormedMarker(m) && NoBareMarker(x + m + y, w)
    requires OccursAt(x + e + z, w, j) && j + |w| <= |x|
    ensures EscapedAt(x + e + z, w, j)
  {
    InHead(x, e, z, w, j);
    KeepsInPrefix(x, m, y, w, j);
    EscapedAtExtendRight(x, e, w, j);
    EscapedAtExtendRight(x + e, z, w, j);
  }

  /** An occurrence wholly inside `z`, which has no bare one, is escaped in
      `x + e + z`. */
  lemma KeepsTail(x: string, e: string, z: string, w: string, j: int)
    requires NoBareMarker(z, w)
    requires OccursAt(x + e + z, w, j) && |x| + |e| <= j
    ensures EscapedAt(x + e + z, w, j)
  {
    InTail(x, e, z, w, j);
    EscapedAtExtendLeft(x + e, z, w, j - |x + e|);
  }

  /** An occurrence of `w` in `x`, which `x + m + y` had escaped, is
      escaped in `x` alone. */
  lemma KeepsInPrefix(x: string, m: string, y: string, w: string, j: int)
    requires WellFormedMarker(m)
    requires NoBareMarker(x + m + y, w)
    requires OccursAt(x, w, j)
    ensures EscapedAt(x, w, j)
  {
    OccursExtendRight(x, m + y, w, j);
    assert x + m + y == x + (m + y);
    EscapedInPrefix(x, m, y, w, j);
  }

  /** An escaped occurrence before `m` has its closing `]` before `m` too,
      since `m` does not start with `]`. */
  lemma EscapedInPrefix(x: string, m: string, y: string, w: string, j: int)
    requires WellFormedMarker(m)
    requires OccursAt(x, w, j)
    requires EscapedAt(x + m + y, w, j)
    ensures EscapedAt(x, w, j)
  {
    var s := x + m + y;
    MarkerChars(m);
    assert s[|x|] == m[0];
    if j + |w| == |x| {
      assert false;
    }
    assert x[j - |EscapeOpen|..j] == s[j - |EscapeOpen|..j];
  }

  /** Escaping `m` keeps every escaped occurrence of another marker `w`
      escaped, and creates no bare one. */
  lemma {:induction false} EscapingKeepsOthersEscaped(s: string, m: string, w: string)
    requires WellFormedMarker(m) && WellFormedMarker(w) && w != m
    requires NoBareMarker(s, w)
    ensures NoBareMarker(ReplaceAll(s, m, Escape(m)), w)
    decreases |s|
  {
    var t := ReplaceAll(s, m, Escape(m));
    MarkerChars(m);
    if Contains(s, m) {
      var k := IndexOf(s, m);
      var x, y := s[..k], s[k + |m|..];
      CutAtFirst(s, m);
      NoBareInSuffix(x, m, y, w);
      EscapingKeepsOthersEscaped(y, m, w);
      forall j | 0 <= j <= |t| && OccursAt(t, w, j)
        ensures EscapedAt(t, w, j)
      {
        KeepsStep(x, m, y, ReplaceAll(y, m, Escape(m)), w, j);
      }
    }
  }

  /** One replacement step for another marker `w` absent from the input:
      no occurrence of `w` at `j` in `x + Escape(m) + z`. */
  lemma AddsNoStep(x: string, m: string, y: string, z: string, w: string, j: int)
    requires WellFormedMarker(m) && WellFormedMarker(w) && w != m
    requires !Contains(x + m + y, w) && !Contains(z, w)
    ensures !OccursAt(x + Escape(m) + z, w, j)
  {
    var e := Escape(m);
    if OccursAt(x + e + z, w, j) {
      MarkerChars(w);
      Straddle(x, e, z, w, j, '[', ']');
      NotInMiddle(x, m, z, w, j);
      if j + |w| <= |x| {
        InHead(x, e, z, w, j);
        OccursExtendRight(x, m + y, w, j);
        assert x + m + y == x + (m + y);
        NotContainsAt(x + m + y, w, j);
        assert false;
      } else {
        InTail(x, e, z, w, j);
        NotContainsAt(z, w, j - |x + e|);
        assert false;
      }
    }
  }

  /** Escaping `m` never creates an occurrence of another marker. */
  lemma {:induction false} EscapingAddsNoMarker(s: string, m: string, w: string)
    requires WellFormedMarker(m) && WellFormedMarker(w) && w != m
    requires !Contains(s, w)
    ensures !Contains(ReplaceAll(s, m, Escape(m)), w)
    decreases |s|
  {
    MarkerChars(m);
    if Contains(s, m) {
      var k := IndexOf(s, m);
      var x, y := s[..k], s[k + |m|..];
      CutAtFirst(s, m);
      if Contains(y, w) {
        var i := IndexOf(y, w);
        OccursExtendLeft(x + m, y, w, i);
        NotContainsAt(s, w, i + |x + m|);
        assert false;
      }
      EscapingAddsNoMarker(y, m, w);
      var z := ReplaceAll(y, m, Escape(m));
      forall j | 0 <= j <= |x + Escape(m) + z|
        ensures !OccursAt(x + Escape(m) + z, w, j)
      {
        AddsNoStep(x, m, y, z, w, j);
      }
    }
  }

  // ---------------------------------------------------------------------
  // sanitizeCodeContent
  // ---------------------------------------------------------------------

  /** `foundMarkers`: the markers of `markers` that `content` contains, in
      list order. */
  function FoundMarkers(content: string, markers: seq<string>): (found: seq<string>)
    ensures forall m :: m in found <==> m in markers && Contains(content, m)
    ensures |found| <= |markers|
  {
    if |markers| == 0 then []
    else
      var rest := FoundMarkers(content, markers[1..]);
      assert forall m :: m in markers <==> m == markers[0] || m in markers[1..];
      if Contains(content, markers[0]) then [markers[0]] + rest else rest
  }

  /** `content.split(marker).join('[ESCAPED:marker]')` for each marker in
      turn. */
  function EscapeEach(content: string, markers: seq<string>): string
    requires forall m :: m in markers ==> WellFormedMarker(m)
    decreases |markers|
  {
    if |markers| == 0 then content
    else
      assert markers[0] in markers;
      MarkerChars(markers[0]);
      EscapeEach(ReplaceAll(content, markers[0], Escape(markers[0])), markers[1..])
  }

  lemma {:induction false} EscapeEachSound(s: string, ms: seq<string>)
    requires forall m :: m in ms ==> WellFormedMarker(m)
    ensures forall w :: w in ms ==> NoBareMarker(EscapeEach(s, ms), w)
    ensures forall w :: WellFormedMarker(w) && w !in ms && !Contains(s, w) ==>
              !Contains(EscapeEach(s, ms), w)
    ensures forall w :: WellFormedMarker(w) && NoBareMarker(s, w) ==>
              NoBareMarker(EscapeEach(s, ms), w)
    decreases |ms|
  {
    if |ms| > 0 {
      var m := ms[0];
      assert m in ms;
      var s' := ReplaceAll(s, m, Escape(m));
      var tail := ms[1..];
      assert forall w :: w in ms <==> w == m || w in tail;
      EscapeEachSound(s', tail);
      assert EscapeEach(s, ms) == EscapeEach(s', tail);
      EscapingCoversMarker(s, m);
      forall w | WellFormedMarker(w) && w != m && NoBareMarker(s, w)
        ensures NoBareMarker(s', w)
      {
        EscapingKeepsOthersEscaped(s, m, w);
      }
      forall w | WellFormedMarker(w) && w != m && !Contains(s, w)
        ensures !Contains(s', w)
      {
        EscapingAddsNoMarker(s, m, w);
      }
    }
  }

  /** The escaping step of `sanitizeCodeContent`: the markers found in the
      original content, each escaped in list order. */
  function EscapeMarkers(content: string): string {
    ForbiddenMarkersWellFormed();
    EscapeEach(content, FoundMarkers(content, ForbiddenMarkers))
  }

  /** After escaping, no forbidden marker occurs bare; a marker the content
      lacked is still absent; content without markers is unchanged. */
  lemma EscapeMarkersSound(content: string)
    ensures forall w :: w in ForbiddenMarkers ==> NoBareMarker(EscapeMarkers(content), w)
    ensures forall w :: w in ForbiddenMarkers && !Contains(content, w) ==>
              !Contains(EscapeMarkers(content), w)
    ensures (forall w :: w in ForbiddenMarkers ==> !Contains(content, w)) ==>
              EscapeMarkers(content) == content
  {
    ForbiddenMarkersWellFormed();
    var found := FoundMarkers(content, ForbiddenMarkers);
    EscapeEachSound(content, found);
    var r := EscapeMarkers(content);
    forall w | w in ForbiddenMarkers
      ensures NoBareMarker(r, w)
    {
      if w !in found {
        assert !Contains(r, w);
      }
    }
    if forall w :: w in ForbiddenMarkers ==> !Contains(content, w) {
      assert found == [];
    }
  }

  // ---------------------------------------------------------------------
  // Undoing the escape
  // ---------------------------------------------------------------------

  /** The escaped form opens with `[ESCAPED:`, and its opening `[` is the
      only one it holds. */
  lemma EscapeShape(m: string)
    requires WellFormedMarker(m)
    ensures |Escape(m)| > |EscapeOpen| && Escape(m)[..|EscapeOpen|] == EscapeOpen
    ensures Escape(m)[0] == '[' && forall d :: 0 < d < |Escape(m)| ==> Escape(m)[d] != '['
  {
    MarkerChars(m);
    var e := Escape(m);
    forall d | 0 < d < |e|
      ensures e[d] != '['
    {
      if |EscapeOpen| <= d < |EscapeOpen| + |m| {
        assert e[d] == m[d - |EscapeOpen|];
      }
    }
  }

  /** In `x + e + z`, where `e` holds `[` only at its start and `x` lacks
      `e`, the first occurrence of `e` is the one right after `x`. */
  lemma FirstEscapeAt(x: string, e: string, z: string)
    requires |e| > 0 && e[0] == '[' && (forall d :: 0 < d < |e| ==> e[d] != '[')
    requires !Contains(x, e)
    ensures IndexOf(x + e + z, e) == |x|
  {
    var t := x + e + z;
    assert t[|x|..|x| + |e|] == e;
    forall j | 0 <= j < |x|
      ensures !OccursAt(t, e, j)
    {
      if OccursAt(t, e, j) {
        if j + |e| <= |x| {
          InHead(x, e, z, e, j);
          NotContainsAt(x, e, j);
        } else {
          OccursCharAt(t, e, j, |x|);
        }
      }
    }
    IndexOfIs(t, e, |x|);
  }

  /** A text without the pattern lacks it before and after any cut. */
  lemma LacksAround(x: string, m: string, y: string, p: string)
    requires !Contains(x + m + y, p)
    ensures !Contains(x, p) && !Contains(y, p)
  {
    assert "" + x + (m + y) == x + m + y;
    LacksInMiddle("", x, m + y, p);
    assert (x + m) + y + "" == x + m + y;
    LacksInMiddle(x + m, y, "", p);
  }

  /** Turning the escaped forms of `m` back into `m` undoes one escaping
      step, provided the text held no escaped form of `m` to begin with. */
  lemma {:induction false} UnescapeUndoesStep(s: string, m: string)
    requires WellFormedMarker(m) && !Contains(s, Escape(m))
    ensures ReplaceAll(ReplaceAll(s, m, Escape(m)), Escape(m), m) == s
    decreases |s|
  {
    MarkerChars(m);
    var e := Escape(m);
    if Contains(s, m) {
      var k := IndexOf(s, m);
      var x, y := s[..k], s[k + |m|..];
      var z := ReplaceAll(y, m, e);
      var t := x + e + z;
      assert s == x + m + y && ReplaceAll(s, m, e) == t && !Contains(x, m) by {
        CutAtFirst(s, m);
      }
      assert !Contains(x, e) && ReplaceAll(z, e, m) == y by {
        LacksAround(x, m, y, e);
        UnescapeUndoesStep(y, m);
      }
      assert ReplaceAll(t, e, m) == x + m + ReplaceAll(z, e, m) by {
        EscapeShape(m);
        FirstEscapeAt(x, e, z);
        ReplaceAllFirst(t, e, m);
        ConcatParts(x, e, z);
      }
    }
  }

  /** The outer parts of `x + e + z`. */
  lemma ConcatParts(x: string, e: string, z: string)
    ensures (x + e + z)[..|x|] == x && (x + e + z)[|x| + |e|..] == z
  {
  }

  /** The escaped form of `w` cannot start where the escaped form of
      another marker does. */
  lemma EscapeNotAtOther(m: string, w: string, z: string)
    requires WellFormedMarker(m) && WellFormedMarker(w) && w != m
    ensures !OccursAt(Escape(m) + z, Escape(w), 0)
  {
    var e, f := Escape(m), Escape(w);
    var n := |EscapeOpen|;
    if OccursAt(e + z, f, 0) {
      MarkerChars(m);
      MarkerChars(w);
      if |w| < |m| {
        OccursCharAt(e + z, f, 0, n + |w|);
      } else if |w| > |m| {
        OccursCharAt(e + z, f, 0, n + |m|);
      } else {
        forall i | 0 <= i < |w|
          ensures w[i] == m[i]
        {
          OccursCharAt(e + z, f, 0, n + i);
          assert f[n + i] == w[i] && (e + z)[n + i] == m[i];
        }
      }
    }
  }

  /** One escaping step for `m`: no escaped form of another marker `w` at
      `j` in `x + Escape(m) + z` when neither side holds one. */
  lemma NoEscapeAcross(x: string, m: string, z: string, w: string, j: int)
    requires WellFormedMarker(m) && WellFormedMarker(w) && w != m
    requires !Contains(x, Escape(w)) && !Contains(z, Escape(w))
    ensures !OccursAt(x + Escape(m) + z, Escape(w), j)
  {
    var e, f := Escape(m), Escape(w);
    var t := x + e + z;
    if OccursAt(t, f, j) {
      EscapeShape(m);
      EscapeShape(w);
      if j + |f| <= |x| {
        InHead(x, e, z, f, j);
        NotContainsAt(x, f, j);
      } else if j < |x| {
        OccursCharAt(t, f, j, |x|);
      } else if j == |x| {
        assert t == x + (e + z);
        OccursInRight(x, e + z, f, j);
        EscapeNotAtOther(m, w, z);
      } else if j < |x| + |e| {
        OccursCharAt(t, f, j, j);
      } else {
        InTail(x, e, z, f, j);
        NotContainsAt(z, f, j - |x| - |e|);
      }
    }
  }

  /** Escaping `m` never creates the escaped form of another marker. */
  lemma {:induction false} EscapingAddsNoEscape(s: string, m: string, w: string)
    requires WellFormedMarker(m) && WellFormedMarker(w) && w != m
    requires !Contains(s, Escape(w))
    ensures !Contains(ReplaceAll(s, m, Escape(m)), Escape(w))
    decreases |s|
  {
    MarkerChars(m);
    if Contains(s, m) {
      var k := IndexOf(s, m);
      var x, y := s[..k], s[k + |m|..];
      CutAtFirst(s, m);
      LacksAround(x, m, y, Escape(w));
      EscapingAddsNoEscape(y, m, w);
      var z := ReplaceAll(y, m, Escape(m));
      forall j
        ensures !OccursAt(x + Escape(m) + z, Escape(w), j)
      {
        NoEscapeAcross(x, m, z, w, j);
      }
    }
  }

  /** No marker is listed twice. */
  predicate Distinct(ms: seq<string>) {
    forall i, j :: 0 <= i < j < |ms| ==> ms[i] != ms[j]
  }

  /** Undoing `EscapeEach`: the escaped forms turned back into their
      markers, the last marker first. */
  function UnescapeEach(t: string, markers: seq<string>): string
    requires forall m :: m in markers ==> WellFormedMarker(m)
    decreases |markers|
  {
    if |markers| == 0 then t
    else
      assert markers[0] in markers;
      ReplaceAll(UnescapeEach(t, markers[1..]), Escape(markers[0]), markers[0])
  }

  /** Escaping a list of distinct markers loses nothing: unescaping gives
      the text back when it held none of their escaped forms. */
  lemma {:induction false} UnescapeEachUndoes(s: string, ms: seq<string>)
    requires forall m :: m in ms ==> WellFormedMarker(m)
    requires Distinct(ms)
    requires forall m :: m in ms ==> !Contains(s, Escape(m))
    ensures UnescapeEach(EscapeEach(s, ms), ms) == s
    decreases |ms|
  {
    if |ms| > 0 {
      var m := ms[0];
      assert m in ms;
      MarkerChars(m);
      var s' := ReplaceAll(s, m, Escape(m));
      var tail := ms[1..];
      forall w | w in tail
        ensures WellFormedMarker(w) && !Contains(s', Escape(w))
      {
        var i :| 0 <= i < |tail| && tail[i] == w;
        assert ms[i + 1] == w && w in ms;
        EscapingAddsNoEscape(s, m, w);
      }
      assert Distinct(tail) by {
        forall i, j | 0 <= i < j < |tail|
          ensures tail[i] != tail[j]
        {
          assert tail[i] == ms[i + 1] && tail[j] == ms[j + 1];
        }
      }
      UnescapeEachUndoes(s', tail);
      assert EscapeEach(s, ms) == EscapeEach(s', tail);
      UnescapeUndoesStep(s, m);
    }
  }

  /** The forbidden markers are pairwise different. */
  lemma ForbiddenMarkersDistinct()
    ensures Distinct(ForbiddenMarkers)
  {
  }

  /** Markers found in list order from a list without repeats are without
      repeats. */
  lemma {:induction false} FoundDistinct(content: string, markers: seq<string>)
    requires Distinct(markers)
    ensures Distinct(FoundMarkers(content, markers))
    decreases |markers|
  {
    if |markers| > 0 {
      var tail := markers[1..];
      assert Distinct(tail) by {
        forall i, j | 0 <= i < j < |tail|
          ensures tail[i] != tail[j]
        {
          assert tail[i] == markers[i + 1] && tail[j] == markers[j + 1];
        }
      }
      FoundDistinct(content, tail);
      var rest := FoundMarkers(content, tail);
      if Contains(content, markers[0]) {
        var found := [markers[0]] + rest;
        forall i, j | 0 <= i < j < |found|
          ensures found[i] != found[j]
        {
          if i == 0 {
            assert found[j] in rest;
          } else {
            assert found[i] == rest[i - 1] && found[j] == rest[j - 1];
          }
        }
      }
    }
  }

  /** A text holding the escaped form of a marker holds `[ESCAPED:`. */
  lemma EscapedFormHasOpen(s: string, m: string)
    requires WellFormedMarker(m) && Contains(s, Escape(m))
    ensures Contains(s, EscapeOpen)
  {
    var i := IndexOf(s, Escape(m));
    EscapeShape(m);
    assert s[i..i + |EscapeOpen|] == Escape(m)[..|EscapeOpen|];
    ContainsAt(s, EscapeOpen, i);
  }

  /** Content holding no `[ESCAPED:` holds no escaped form of a marker. */
  lemma {:induction false} NoOpenNoEscape(content: string, ms: seq<string>)
    requires forall m :: m in ms ==> WellFormedMarker(m)
    requires !Contains(content, EscapeOpen)
    ensures forall m :: m in ms ==> !Contains(content, Escape(m))
  {
    forall m | m in ms
      ensures !Contains(content, Escape(m))
    {
      if Contains(content, Escape(m)) {
        EscapedFormHasOpen(content, m);
      }
    }
  }

  /** Turning back the escaped forms of the markers `content` held. */
  function UnescapeMarkers(t: string, content: string): string {
    ForbiddenMarkersWellFormed();
    UnescapeEach(t, FoundMarkers(content, ForbiddenMarkers))
  }

  /** Escaping keeps all other text: for content holding no `[ESCAPED:`,
      turning the escaped forms of the found markers back gives the content
      back. */
  lemma EscapeMarkersReversible(content: string)
    requires !Contains(content, EscapeOpen)
    ensures UnescapeMarkers(EscapeMarkers(content), content) == content
  {
    ForbiddenMarkersWellFormed();
    var found := FoundMarkers(content, ForbiddenMarkers);
    ForbiddenMarkersDistinct();
    FoundDistinct(content, ForbiddenMarkers);
    NoOpenNoEscape(content, found);
    UnescapeEachUndoes(content, found);
  }

  /** The opening and closing delimiters `wrapInSafeDelimiters` uses. */
  function OpenDelimiter(contentType: string): string {
    "<USER_CODE type=\"" + contentType + "\">\n"
  }

  const CloseDelimiter: string := "\n</USER_CODE>"

  /** `wrapInSafeDelimiters`: the content between a typed opening delimiter
      and the closing one; `UnwrapUserCode` recovers it. */
  function WrapInSafeDelimiters(content: string, contentType: string): (r: string)
    ensures |r| == |OpenDelimiter(contentType)| + |content| + |CloseDelimiter|
    ensures UnwrapUserCode(r, contentType) == Some(content)
  {
    var r := OpenDelimiter(contentType) + content + CloseDelimiter;
    assert r[..|OpenDelimiter(contentType)|] == OpenDelimiter(contentType);
    assert r[|r| - |CloseDelimiter|..] == CloseDelimiter;
    assert r[|OpenDelimiter(contentType)|..|r| - |CloseDelimiter|] == content;
    r
  }

  /** The body of a delimited block of the given type, if `s` is one. */
  function UnwrapUserCode(s: string, contentType: string): Option<string> {
    var open := OpenDelimiter(contentType);
    if |open| + |CloseDelimiter| <= |s| && StartsWith(s, open) && EndsWith(s, CloseDelimiter)
    then Some(s[|open|..|s| - |CloseDelimiter|])
    else None
  }

  /** What `sanitizeCodeContent` produces: the text, plus the two warnings it
      logs (forbidden markers escaped; an instruction-override pattern seen). */
  datatype Sanitized = Sanitized(text: string, markersEscaped: bool, injectionSuspected: bool)

  /** `sanitizeCodeContent`. `content` is `None` for a non-string argument.
      `patternHit` stands for the outcome of the SUSPICIOUS_PATTERNS regular
      expressions on the escaped content, which the model does not interpret;
      it only decides the second warning. Escaping loses nothing: for content
      without `[ESCAPED:`, unescaping the wrapped body gives the content back. */
  function SanitizeCodeContent(content: Option<string>, contentType: string, patternHit: bool): (r: Sanitized)
    ensures content.None? || content == Some("") ==> r == Sanitized("", false, false)
    ensures content.Some? && content.value != "" ==>
              && r.injectionSuspected == patternHit
              && (r.markersEscaped <==> exists w :: w in ForbiddenMarkers && Contains(content.value, w))
              && UnwrapUserCode(r.text, contentType).Some?
              && var body := UnwrapUserCode(r.text, contentType).value;
                 && (forall w :: w in ForbiddenMarkers ==> NoBareMarker(body, w))
                 && ((forall w :: w in ForbiddenMarkers ==> !Contains(content.value, w)) ==> body == content.value)
                 && (!Contains(content.value, EscapeOpen) ==> UnescapeMarkers(body, content.value) == content.value)
  {
    match content
    case None => Sanitized("", false, false)
    case Some(c) =>
      if c == "" then Sanitized("", false, false)
      else
        var found := FoundMarkers(c, ForbiddenMarkers);
        assert |found| > 0 ==> found[0] in found;
        EscapeMarkersSound(c);
        assert !Contains(c, EscapeOpen) ==> UnescapeMarkers(EscapeMarkers(c), c) == c by {
          if !Contains(c, EscapeOpen) {
            EscapeMarkersReversible(c);
          }
        }
        Sanitized(WrapInSafeDelimiters(EscapeMarkers(c), contentType), |found| > 0, patternHit)
  }

  /** The instruction-override patterns only log: the returned text does not
      depend on them. */
  lemma SuspiciousPatternsOnlyLog(content: Option<string>, contentType: string, hit1: bool, hit2: bool)
    ensures SanitizeCodeContent(content, contentType, hit1).text
         == SanitizeCodeContent(content, contentType, hit2).text
  {
  }

  // ---------------------------------------------------------------------
  // validateAIResponse
  // ---------------------------------------------------------------------

  /** Every expected marker occurs in the response. */
  predicate AllPresent(response: string, markers: seq<string>) {
    forall k :: 0 <= k < |markers| ==> Contains(response, markers[k])
  }

  /** The first occurrences of the markers strictly increase in list order. */
  predicate FirstOccurrencesIncrease(response: string, markers: seq<string>) {
    forall k, l :: 0 <= k < l < |markers| ==> IndexOf(response, markers[k]) < IndexOf(response, markers[l])
  }

  /** The first loop of `validateAIResponse`: stop at the first missing marker. */
  function CheckPresent(response: string, markers: seq<string>): (ok: bool)
    ensures ok <==> AllPresent(response, markers)
  {
    if |markers| == 0 then true
    else if !Contains(response, markers[0]) then false
    else
      var ok := CheckPresent(response, markers[1..]);
      assert AllPresent(response, markers[1..]) <==>
             forall k :: 1 <= k < |markers| ==> Contains(response, markers[k]);
      ok
  }

  /** Every first-occurrence index of `markers` exceeds `lastIndex`. */
  predicate AllAfter(response: string, markers: seq<string>, lastIndex: int) {
    forall k :: 0 <= k < |markers| ==> lastIndex < IndexOf(response, markers[k])
  }

  /** The second loop: each first-occurrence index must exceed the last. */
  function CheckOrder(response: string, markers: seq<string>, lastIndex: int): (ok: bool)
    ensures ok <==> AllAfter(response, markers, lastIndex) && FirstOccurrencesIncrease(response, markers)
  {
    if |markers| == 0 then true
    else
      var index := IndexOf(response, markers[0]);
      if index <= lastIndex then false
      else
        var ok := CheckOrder(response, markers[1..], index);
        OrderStep(response, markers, lastIndex);
        ok
  }

  /** One step of the second loop: the list is ordered after `lastIndex`
      exactly when its head is, and its tail is ordered after the head. */
  lemma OrderStep(response: string, markers: seq<string>, lastIndex: int)
    requires |markers| > 0 && lastIndex < IndexOf(response, markers[0])
    ensures var index := IndexOf(response, markers[0]);
            AllAfter(response, markers, lastIndex) && FirstOccurrencesIncrease(response, markers)
            <==> AllAfter(response, markers[1..], index) && FirstOccurrencesIncrease(response, markers[1..])
  {
    var index := IndexOf(response, markers[0]);
    var tail := markers[1..];
    assert forall k :: 0 <= k < |tail| ==> tail[k] == markers[k + 1];
    if AllAfter(response, tail, index) && FirstOccurrencesIncrease(response, tail) {
      forall k, l | 0 <= k < l < |markers|
        ensures IndexOf(response, markers[k]) < IndexOf(response, markers[l])
      {
        if k > 0 {
          assert IndexOf(response, tail[k - 1]) < IndexOf(response, tail[l - 1]);
        } else {
          assert index < IndexOf(response, tail[l - 1]);
        }
      }
      forall k | 0 <= k < |markers|
        ensures lastIndex < IndexOf(response, markers[k])
      {
        if k > 0 {
          assert index < IndexOf(response, tail[k - 1]);
        }
      }
    }
    if AllAfter(response, markers, lastIndex) && FirstOccurrencesIncrease(response, markers) {
      forall k | 0 <= k < |tail|
        ensures index < IndexOf(response, tail[k])
      {
        assert IndexOf(response, markers[0]) < IndexOf(response, markers[k + 1]);
      }
      forall k, l | 0 <= k < l < |tail|
        ensures IndexOf(response, tail[k]) < IndexOf(response, tail[l])
      {
        assert IndexOf(response, markers[k + 1]) < IndexOf(response, markers[l + 1]);
      }
    }
  }

  /** `validateAIResponse`. `response` is `None` for a non-string argument.
      True exactly when the response is a non-empty string containing every
      expected marker, with their first occurrences in list order. */
  function ValidateAIResponse(response: Option<string>, expectedMarkers: seq<string>): (ok: bool)
    ensures ok <==> && response.Some?
                    && response.value != ""
                    && AllPresent(response.value, expectedMarkers)
                    && FirstOccurrencesIncrease(response.value, expectedMarkers)
  {
    match response
    case None => false
    case Some(text) =>
      if text == "" then false
      else if !CheckPresent(text, expectedMarkers) then false
      else CheckOrder(text, expectedMarkers, -1)
  }

  /** A marker listed twice, or two markers whose first occurrences appear
      in the other order, make the response invalid (never an error). */
  lemma DuplicateOrReversedMarkersRejected(response: string, markers: seq<string>, k: int, l: int)
    requires 0 <= k < l < |markers|
    requires markers[k] == markers[l]
             || IndexOf(response, markers[l]) < IndexOf(response, markers[k])
    ensures !ValidateAIResponse(Some(response), markers)
  {
  }

  // ---------------------------------------------------------------------
  // sanitizeComponentName
  // ---------------------------------------------------------------------

  /** `name.split(marker).join('')` for each marker in turn: a single pass
      over the list. */
  function StripMarkers(name: string, markers: seq<string>): (r: string)
    requires forall m :: m in markers ==> |m| > 0
    ensures |r| <= |name|
    ensures (forall m :: m in markers ==> !Contains(name, m)) ==> r == name
    ensures (exists m :: m in markers && Contains(name, m)) ==> |r| < |name|
    decreases |markers|
  {
    if |markers| == 0 then name
    else
      assert markers[0] in markers;
      assert forall m :: m in markers <==> m == markers[0] || m in markers[1..];
      var once := ReplaceAll(name, markers[0], "");
      DeletionShrinks(name, markers[0]);
      if !Contains(name, markers[0]) then StripMarkers(name, markers[1..])
      else
        StripMarkers(once, markers[1..])
  }

  /** `sanitizeComponentName` of the prompt sanitizer (a display name, never
      an error). `name` is `None` for a non-string argument. */
  function SanitizeComponentName(name: Option<string>): (r: string)
    ensures name.None? || name == Some("") ==> r == "Component"
    ensures name.Some? && name.value != "" ==>
              && |r| <= |name.value|
              && Trimmed(r)
              && ((forall m :: m in ForbiddenMarkers ==> !Contains(name.value, m)) ==> r == Trim(name.value))
              && ((exists m :: m in ForbiddenMarkers && Contains(name.value, m)) ==> |r| < |name.value|)
  {
    match name
    case None => "Component"
    case Some(n) =>
      if n == "" then "Component"
      else Trim(StripForbidden(n))
  }

  /** Every forbidden marker deleted from `name`, in list order. */
  function StripForbidden(name: string): (r: string)
    ensures |r| <= |name|
    ensures (forall m :: m in ForbiddenMarkers ==> !Contains(name, m)) ==> r == name
    ensures (exists m :: m in ForbiddenMarkers && Contains(name, m)) ==> |r| < |name|
  {
    ForbiddenMarkersWellFormed();
    StripMarkers(name, ForbiddenMarkers)
  }

  /** A section marker cannot occur in `a + p + b` when `p` is a placeholder
      and `a` and `b` are each shorter than the marker: the braces of `p`
      stop it. */
  lemma SectionMarkerBlockedByBraces(a: string, p: string, b: string, w: string)
    requires SectionMarker(w) && Placeholder(p)
    requires |a| < |w| && |b| < |w|
    ensures !Contains(a + p + b, w)
  {
    if Contains(a + p + b, w) {
      var j := IndexOf(a + p + b, w);
      SectionShape(w);
      PlaceholderShape(p);
      assert '{' !in w && '}' !in w;
      Straddle(a, p, b, w, j, '{', '}');
      assert (a + p + b)[j..j + |w|] == p[j - |a|..j - |a| + |w|];
      MarkerInMarker(w, p, j - |a|);
      assert false;
    }
  }

  /** Markers the name does not contain are skipped. */
  lemma {:induction false} StripSkipsAbsent(name: string, ms: seq<string>, n: nat)
    requires forall m :: m in ms ==> |m| > 0
    requires n <= |ms|
    requires forall i :: 0 <= i < n ==> !Contains(name, ms[i])
    ensures StripMarkers(name, ms) == StripMarkers(name, ms[n..])
    decreases n
  {
    if n > 0 {
      StripSkip(name, ms);
      StripSkipsAbsent(name, ms[1..], n - 1);
      assert ms[1..][n - 1..] == ms[n..];
    }
  }

  /** A marker the name lacks is skipped. */
  lemma StripSkip(name: string, ms: seq<string>)
    requires |ms| > 0 && (forall m :: m in ms ==> |m| > 0) && !Contains(name, ms[0])
    ensures forall m :: m in ms[1..] ==> |m| > 0
    ensures StripMarkers(name, ms) == StripMarkers(name, ms[1..])
  {
    assert forall m :: m in ms[1..] ==> m in ms;
  }

  /** The example name: `===COMP`, a placeholder, `ONENT===`. */
  const Glued: string := "===COMP" + "{{HTML_CONTENT}}" + "ONENT==="

  /** None of the three section markers occurs in the example name. */
  lemma GluedHasNoSection(i: int)
    requires 0 <= i < 3
    ensures !Contains(Glued, ForbiddenMarkers[i])
  {
    ContentPlaceholdersWellFormed();
    assert ForbiddenMarkers[3] == "{{HTML_CONTENT}}";
    SectionMarkersWellFormed();
    SectionMarkerBlockedByBraces("===COMP", "{{HTML_CONTENT}}", "ONENT===", ForbiddenMarkers[i]);
  }

  /** Deleting `p` from `a + p + b`, where `a` lacks the first character of
      `p` and `b` is too short to hold `p`, leaves `a + b`. */
  lemma DeleteOnlyOccurrence(a: string, p: string, b: string)
    requires |p| > 0 && p[0] !in a && |b| < |p|
    ensures Contains(a + p + b, p)
    ensures ReplaceAll(a + p + b, p, "") == a + b
  {
    var x := a + p + b;
    assert x[|a|..|a| + |p|] == p;
    assert OccursAt(x, p, |a|);
    forall j | 0 <= j < |a|
      ensures !OccursAt(x, p, j)
    {
      assert x[j] == a[j] != p[0];
      if j + |p| <= |x| {
        assert x[j..j + |p|][0] == x[j];
      }
    }
    assert IndexOf(x, p) == |a|;
    ReplaceAllFirst(x, p, "");
    assert x[|a| + |p|..] == b;
  }

  /** Deleting the placeholder glues the two halves into `===COMPONENT===`. */
  lemma GluedDeletion()
    ensures Contains(Glued, "{{HTML_CONTENT}}")
    ensures ReplaceAll(Glued, "{{HTML_CONTENT}}", "") == "===COMPONENT==="
  {
    var a, p, b := "===COMP", "{{HTML_CONTENT}}", "ONENT===";
    assert Contains(a + p + b, p) && ReplaceAll(a + p + b, p, "") == a + b by {
      DeleteOnlyOccurrence(a, p, b);
    }
    assert a + b == "===COMPONENT===";
  }

  /** `===COMPONENT===` contains none of the placeholders. */
  lemma ComponentMarkerHasNoPlaceholder(i: int)
    requires 4 <= i < 10
    ensures !Contains("===COMPONENT===", ForbiddenMarkers[i])
  {
    ForbiddenMarkersWellFormed();
    assert ForbiddenMarkers[i] in ForbiddenMarkers;
    assert ForbiddenMarkers[0] in ForbiddenMarkers;
    var c := ForbiddenMarkers[0];
    if Contains(c, ForbiddenMarkers[i]) {
      MarkerInMarker(ForbiddenMarkers[i], c, IndexOf(c, ForbiddenMarkers[i]));
      assert false;
    }
  }

  /** Deletion is single-pass: removing `{{HTML_CONTENT}}` from
      `===COMP{{HTML_CONTENT}}ONENT===` forms `===COMPONENT===`, which was
      already checked, so the "sanitised" name is itself a forbidden marker. */
  lemma StrippingCanFormMarker()
    ensures SanitizeComponentName(Some(Glued)) == "===COMPONENT==="
    ensures "===COMPONENT===" in ForbiddenMarkers
  {
    var c := "===COMPONENT===";
    GluedSkipsSections();
    GluedDeletesPlaceholder();
    ComponentMarkerSurvives();
    assert StripForbidden(Glued) == c;
    assert |Glued| > 0;
    TrimUnchanged(c);
    assert ForbiddenMarkers[0] == c;
  }

  lemma GluedSkipsSections()
    ensures StripForbidden(Glued) == StripMarkers(Glued, ForbiddenMarkers[3..])
  {
    forall i | 0 <= i < 3
      ensures !Contains(Glued, ForbiddenMarkers[i])
    {
      GluedHasNoSection(i);
    }
    SkipSections(Glued);
  }

  /** A name holding no section marker goes straight to the placeholders. */
  lemma SkipSections(name: string)
    requires forall i :: 0 <= i < 3 ==> !Contains(name, ForbiddenMarkers[i])
    ensures StripForbidden(name) == StripMarkers(name, ForbiddenMarkers[3..])
  {
    ForbiddenMarkersWellFormed();
    StripSkipsAbsent(name, ForbiddenMarkers, 3);
  }

  lemma GluedDeletesPlaceholder()
    ensures StripMarkers(Glued, ForbiddenMarkers[3..]) == StripMarkers("===COMPONENT===", ForbiddenMarkers[4..])
  {
    ForbiddenMarkersWellFormed();
    GluedDeletion();
    var tail := ForbiddenMarkers[3..];
    assert tail[0] == "{{HTML_CONTENT}}" && tail[1..] == ForbiddenMarkers[4..];
    StripPresent(Glued, tail);
  }

  /** A marker the name contains is deleted before the rest run. */
  lemma StripPresent(name: string, ms: seq<string>)
    requires |ms| > 0 && (forall m :: m in ms ==> |m| > 0) && Contains(name, ms[0])
    ensures StripMarkers(name, ms) == StripMarkers(ReplaceAll(name, ms[0], ""), ms[1..])
  {
  }

  lemma ComponentMarkerSurvives()
    ensures StripMarkers("===COMPONENT===", ForbiddenMarkers[4..]) == "===COMPONENT==="
  {
    ForbiddenMarkersWellFormed();
    var tail := ForbiddenMarkers[4..];
    forall i | 0 <= i < 6
      ensures !Contains("===COMPONENT===", tail[i])
    {
      ComponentMarkerHasNoPlaceholder(i + 4);
    }
    assert forall m :: m in tail ==> m in ForbiddenMarkers;
    StripSkipsAbsent("===COMPONENT===", tail, 6);
  }

  /** A name whose only forbidden marker (among those the pass reaches
      before it) is the `k`-th one, and which deleting that marker leaves
      free of the later ones, loses exactly that marker's occurrences. */
  lemma StripOnlyMarker(name: string, k: nat)
    requires k < |ForbiddenMarkers|
    requires forall i :: 0 <= i < k ==> !Contains(name, ForbiddenMarkers[i])
    requires forall i :: k < i < |ForbiddenMarkers| ==>
               !Contains(ReplaceAll(name, ForbiddenMarkers[k], ""), ForbiddenMarkers[i])
    ensures StripForbidden(name) == ReplaceAll(name, ForbiddenMarkers[k], "")
  {
    ForbiddenMarkersWellFormed();
    StripOnly(name, ForbiddenMarkers, k);
  }

  /** `StripOnlyMarker` for any list of non-empty markers. */
  lemma StripOnly(name: string, ms: seq<string>, k: nat)
    requires forall m :: m in ms ==> |m| > 0
    requires k < |ms|
    requires forall i :: 0 <= i < k ==> !Contains(name, ms[i])
    requires forall i :: k < i < |ms| ==> !Contains(ReplaceAll(name, ms[k], ""), ms[i])
    ensures StripMarkers(name, ms) == ReplaceAll(name, ms[k], "")
  {
    StripSkipsAbsent(name, ms, k);
    var tail := ms[k..];
    assert tail[0] == ms[k] && tail[1..] == ms[k + 1..];
    assert ms[k] in ms;
    var once := ReplaceAll(name, ms[k], "");
    if Contains(name, ms[k]) {
      StripPresent(name, tail);
    } else {
      StripSkip(name, tail);
    }
    forall m | m in ms[k + 1..]
      ensures !Contains(once, m)
    {
      var i :| 0 <= i < |ms[k + 1..]| && ms[k + 1..][i] == m;
      assert m == ms[k + 1 + i];
    }
  }

  /** Deleting a text from itself leaves nothing. */
  lemma DeleteWhole(m: string)
    requires |m| > 0
    ensures ReplaceAll(m, m, "") == ""
  {
    assert OccursAt(m, m, 0);
    IndexOfIs(m, m, 0);
    ReplaceAllFirst(m, m, "");
    assert m[|m|..] == "";
  }

  /** No forbidden marker holds an earlier one of the list. */
  lemma NoEarlierMarkerInside(k: nat, i: nat)
    requires i < k < |ForbiddenMarkers|
    ensures !Contains(ForbiddenMarkers[k], ForbiddenMarkers[i])
  {
    ForbiddenMarkersWellFormed();
    ForbiddenMarkersDistinct();
    var m, w := ForbiddenMarkers[k], ForbiddenMarkers[i];
    assert m in ForbiddenMarkers && w in ForbiddenMarkers;
    if Contains(m, w) {
      MarkerInMarker(w, m, IndexOf(m, w));
    }
  }

  /** A name that is nothing but a forbidden marker sanitises to the empty
      string, not to the `Component` fallback: the fallback is decided
      before stripping. */
  lemma MarkerNameSanitizesToEmpty(k: nat)
    requires k < |ForbiddenMarkers|
    ensures SanitizeComponentName(Some(ForbiddenMarkers[k])) == ""
  {
    var m := ForbiddenMarkers[k];
    MarkerStripsToEmpty(k);
    assert m != "" by {
      ForbiddenMarkersWellFormed();
      assert m in ForbiddenMarkers;
      MarkerChars(m);
    }
    TrimUnchanged("");
  }

  /** Stripping a name that is exactly a forbidden marker leaves nothing. */
  lemma MarkerStripsToEmpty(k: nat)
    requires k < |ForbiddenMarkers|
    ensures StripForbidden(ForbiddenMarkers[k]) == ""
  {
    var m := ForbiddenMarkers[k];
    assert ReplaceAll(m, m, "") == "" by {
      ForbiddenMarkersWellFormed();
      assert m in ForbiddenMarkers;
      MarkerChars(m);
      DeleteWhole(m);
    }
    EarlierMarkersAbsent(k);
    LaterMarkersAbsent(k);
    StripOnlyMarker(m, k);
  }

  lemma EarlierMarkersAbsent(k: nat)
    requires k < |ForbiddenMarkers|
    ensures forall i :: 0 <= i < k ==> !Contains(ForbiddenMarkers[k], ForbiddenMarkers[i])
  {
    forall i | 0 <= i < k
      ensures !Contains(ForbiddenMarkers[k], ForbiddenMarkers[i])
    {
      NoEarlierMarkerInside(k, i);
    }
  }

  lemma LaterMarkersAbsent(k: nat)
    requires k < |ForbiddenMarkers|
    ensures forall i :: k < i < |ForbiddenMarkers| ==> !Contains("", ForbiddenMarkers[i])
  {
    forall i | k < i < |ForbiddenMarkers|
      ensures !Contains("", ForbiddenMarkers[i])
    {
      ForbiddenMarkersWellFormed();
      assert ForbiddenMarkers[i] in ForbiddenMarkers;
      MarkerChars(ForbiddenMarkers[i]);
      ShortLacks("", ForbiddenMarkers[i]);
    }
  }

  /** Every forbidden marker, given as the whole name, sanitises to "". */
  lemma MarkerNamesSanitizeToEmpty()
    ensures forall m :: m in ForbiddenMarkers ==> SanitizeComponentName(Some(m)) == ""
  {
    forall m | m in ForbiddenMarkers
      ensures SanitizeComponentName(Some(m)) == ""
    {
      var k :| 0 <= k < |ForbiddenMarkers| && ForbiddenMarkers[k] == m;
      MarkerNameSanitizesToEmpty(k);
    }
  }
}
