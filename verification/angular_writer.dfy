/** Where the Angular converter puts its output: `toKebabCase`, the file
    names of `writeAngularFiles` and `savePartialAngularOutput`, and the
    target directory shared with the React Native writer. Letters and white
    space are ASCII. */
module AngularWriter {
  import opened Wrappers
  import opened Strings
  import opened Paths
  import opened Writer

  predicate IsUpper(c: char) { 'A' <= c <= 'Z' }
  predicate IsLower(c: char) { 'a' <= c <= 'z' }
  predicate IsDigit(c: char) { '0' <= c <= '9' }

  predicate NoUpper(s: string) {
    forall i :: 0 <= i < |s| ==> !IsUpper(s[i])
  }

  /** The characters `[\s_]` that step three turns into dashes. */
  predicate Gap(c: char) { IsSpace(c) || c == '_' }

  predicate NoGap(s: string) {
    forall i :: 0 <= i < |s| ==> !Gap(s[i])
  }

  /** `s` with every `-` removed: what the dash-inserting steps keep. */
  function Dashless(s: string): (r: string)
    ensures '-' !in r
    decreases |s|
  {
    if |s| == 0 then "" else (if s[0] == '-' then "" else [s[0]]) + Dashless(s[1..])
  }

  lemma {:induction false} DashlessAppend(a: string, b: string)
    ensures Dashless(a + b) == Dashless(a) + Dashless(b)
    decreases |a|
  {
    if |a| == 0 {
      assert a + b == b;
    } else {
      assert (a + b)[0] == a[0];
      assert (a + b)[1..] == a[1..] + b;
      DashlessAppend(a[1..], b);
    }
  }

  /** Step one, `replace(/([a-z0-9])([A-Z])/g, '$1-$2')`: the scan from the
      left that puts a dash between a lower-case letter or digit and the
      capital after it, resuming after the capital. */
  function CamelBreaks(s: string): (r: string)
    ensures |s| > 0 ==> |r| > 0 && r[0] == s[0]
    decreases |s|
  {
    if |s| < 2 then s
    else if (IsLower(s[0]) || IsDigit(s[0])) && IsUpper(s[1]) then [s[0], '-', s[1]] + CamelBreaks(s[2..])
    else [s[0]] + CamelBreaks(s[1..])
  }

  /** Step one only adds dashes. */
  lemma {:induction false} CamelBreaksAddsOnlyDashes(s: string)
    ensures Dashless(CamelBreaks(s)) == Dashless(s)
    ensures forall c :: c in CamelBreaks(s) ==> c in s || c == '-'
    decreases |s|
  {
    if |s| >= 2 {
      if (IsLower(s[0]) || IsDigit(s[0])) && IsUpper(s[1]) {
        CamelBreaksAddsOnlyDashes(s[2..]);
        DashedHead(s, 2);
        assert [s[0], '-', s[1]] == s[..1] + "-" + s[1..2];
        AddsOnlyDashesStep(s, 2, [s[0], '-', s[1]], CamelBreaks(s[2..]));
      } else {
        CamelBreaksAddsOnlyDashes(s[1..]);
        PlainHead(s);
        AddsOnlyDashesStep(s, 1, [s[0]], CamelBreaks(s[1..]));
      }
    }
  }

  /** A dash put after the first character only adds that dash. */
  lemma DashedHead(s: string, n: nat)
    requires 1 <= n <= |s|
    ensures Dashless(s[..1] + "-" + s[1..n]) == Dashless(s[..n])
    ensures forall c :: c in s[..1] + "-" + s[1..n] ==> c in s[..n] || c == '-'
  {
    DashlessAppend(s[..1] + "-", s[1..n]);
    DashlessAppend(s[..1], "-");
    DashlessAppend(s[..1], s[1..n]);
    assert s[..n] == s[..1] + s[1..n];
  }

  /** The first character on its own. */
  lemma PlainHead(s: string)
    requires |s| >= 1
    ensures [s[0]] == s[..1]
    ensures Dashless([s[0]]) == Dashless(s[..1])
    ensures forall c :: c in [s[0]] ==> c in s[..1] || c == '-'
  {
  }

  /** A scan step that emits the first `n` characters of `s` with dashes
      put among them, then the result `rest` of scanning the remainder,
      which only added dashes, only adds dashes. */
  lemma AddsOnlyDashesStep(s: string, n: nat, head: string, rest: string)
    requires n <= |s| && Dashless(head) == Dashless(s[..n])
    requires forall c :: c in head ==> c in s[..n] || c == '-'
    requires Dashless(rest) == Dashless(s[n..])
    requires forall c :: c in rest ==> c in s[n..] || c == '-'
    ensures Dashless(head + rest) == Dashless(s)
    ensures forall c :: c in head + rest ==> c in s || c == '-'
  {
    assert Dashless(head + rest) == Dashless(s) by {
      DashlessAppend(head, rest);
      DashlessAppend(s[..n], s[n..]);
      assert s == s[..n] + s[n..];
    }
    forall c | c in head + rest
      ensures c in s || c == '-'
    {
      if c in head {
        assert c in s[..n] || c == '-';
      } else {
        assert c in s[n..] || c == '-';
      }
    }
  }

  /** A lower-case letter or digit at `i` directly followed by a capital. */
  predicate Hump(r: string, i: int)
    requires 0 <= i < |r| - 1
  {
    (IsLower(r[i]) || IsDigit(r[i])) && IsUpper(r[i + 1])
  }

  /** After step one no lower-case letter or digit is directly followed by
      a capital. */
  lemma {:induction false} CamelBreaksSplitsHumps(s: string)
    ensures forall i :: 0 <= i < |CamelBreaks(s)| - 1 ==> !Hump(CamelBreaks(s), i)
    decreases |s|
  {
    if |s| >= 2 {
      if (IsLower(s[0]) || IsDigit(s[0])) && IsUpper(s[1]) {
        CamelBreaksSplitsHumps(s[2..]);
        var rest := CamelBreaks(s[2..]);
        var r := [s[0], '-', s[1]] + rest;
        assert CamelBreaks(s) == r;
        forall i | 0 <= i < |r| - 1
          ensures !Hump(r, i)
        {
          if i >= 3 {
            assert r[i] == rest[i - 3] && r[i + 1] == rest[i - 2];
            assert !Hump(rest, i - 3);
          } else if i == 2 {
            assert r[2] == s[1];
          } else {
            assert r[1] == '-';
          }
        }
      } else {
        CamelBreaksSplitsHumps(s[1..]);
        var rest := CamelBreaks(s[1..]);
        var r := [s[0]] + rest;
        assert CamelBreaks(s) == r;
        forall i | 0 <= i < |r| - 1
          ensures !Hump(r, i)
        {
          if i >= 1 {
            assert r[i] == rest[i - 1] && r[i + 1] == rest[i];
            assert !Hump(rest, i - 1);
          } else {
            assert r[1] == s[1];
          }
        }
      }
    }
  }

  /** Without capitals, step one changes nothing. */
  lemma {:induction false} CamelBreaksNoUpper(s: string)
    requires NoUpper(s)
    ensures CamelBreaks(s) == s
    decreases |s|
  {
    if |s| >= 2 {
      CamelBreaksNoUpper(s[1..]);
      assert s == [s[0]] + s[1..];
    }
  }

  /** Step two, `replace(/([A-Z])([A-Z][a-z])/g, '$1-$2')`: the scan that
      splits a run of capitals before the capital that starts a word
      (`HTMLParser` to `HTML-Parser`). */
  function AcronymBreaks(s: string): (r: string)
    ensures |s| > 0 ==> |r| > 0 && r[0] == s[0]
    ensures |s| > 1 ==> |r| > 1 && (r[1] == s[1] || r[1] == '-')
    decreases |s|
  {
    if |s| < 3 then s
    else if IsUpper(s[0]) && IsUpper(s[1]) && IsLower(s[2]) then [s[0], '-', s[1], s[2]] + AcronymBreaks(s[3..])
    else [s[0]] + AcronymBreaks(s[1..])
  }

  /** Step two only adds dashes. */
  lemma {:induction false} AcronymBreaksAddsOnlyDashes(s: string)
    ensures Dashless(AcronymBreaks(s)) == Dashless(s)
    ensures forall c :: c in AcronymBreaks(s) ==> c in s || c == '-'
    decreases |s|
  {
    if |s| >= 3 {
      if IsUpper(s[0]) && IsUpper(s[1]) && IsLower(s[2]) {
        AcronymBreaksAddsOnlyDashes(s[3..]);
        DashedHead(s, 3);
        assert [s[0], '-', s[1], s[2]] == s[..1] + "-" + s[1..3];
        AddsOnlyDashesStep(s, 3, [s[0], '-', s[1], s[2]], AcronymBreaks(s[3..]));
      } else {
        AcronymBreaksAddsOnlyDashes(s[1..]);
        PlainHead(s);
        AddsOnlyDashesStep(s, 1, [s[0]], AcronymBreaks(s[1..]));
      }
    }
  }

  /** Two capitals at `i` followed by a lower-case letter. */
  predicate RunBeforeWord(r: string, i: int)
    requires 0 <= i < |r| - 2
  {
    IsUpper(r[i]) && IsUpper(r[i + 1]) && IsLower(r[i + 2])
  }

  /** After step two no two capitals are followed by a lower-case letter. */
  lemma {:induction false} AcronymBreaksSplitsRuns(s: string)
    ensures forall i :: 0 <= i < |AcronymBreaks(s)| - 2 ==> !RunBeforeWord(AcronymBreaks(s), i)
    decreases |s|
  {
    if |s| >= 3 {
      if IsUpper(s[0]) && IsUpper(s[1]) && IsLower(s[2]) {
        AcronymBreaksSplitsRuns(s[3..]);
        var rest := AcronymBreaks(s[3..]);
        var r := [s[0], '-', s[1], s[2]] + rest;
        assert AcronymBreaks(s) == r;
        forall i | 0 <= i < |r| - 2
          ensures !RunBeforeWord(r, i)
        {
          if i >= 4 {
            assert r[i] == rest[i - 4] && r[i + 1] == rest[i - 3] && r[i + 2] == rest[i - 2];
            assert !RunBeforeWord(rest, i - 4);
          } else if i >= 2 {
            assert r[3] == s[2];
          } else {
            assert r[1] == '-';
          }
        }
      } else {
        AcronymBreaksSplitsRuns(s[1..]);
        var rest := AcronymBreaks(s[1..]);
        var r := [s[0]] + rest;
        assert AcronymBreaks(s) == r;
        forall i | 0 <= i < |r| - 2
          ensures !RunBeforeWord(r, i)
        {
          if i >= 1 {
            assert r[i] == rest[i - 1] && r[i + 1] == rest[i] && r[i + 2] == rest[i + 1];
            assert !RunBeforeWord(rest, i - 1);
          } else {
            assert r[1] == s[1] && (r[2] == s[2] || r[2] == '-');
          }
        }
      }
    }
  }

  /** Without capitals, step two changes nothing. */
  lemma {:induction false} AcronymBreaksNoUpper(s: string)
    requires NoUpper(s)
    ensures AcronymBreaks(s) == s
    decreases |s|
  {
    if |s| >= 3 {
      AcronymBreaksNoUpper(s[1..]);
      assert s == [s[0]] + s[1..];
    }
  }

  /** The number of gap characters `s` starts with. */
  function GapRun(s: string): (n: nat)
    ensures n <= |s|
    ensures forall i :: 0 <= i < n ==> Gap(s[i])
    ensures n < |s| ==> !Gap(s[n])
  {
    if |s| == 0 || !Gap(s[0]) then 0 else 1 + GapRun(s[1..])
  }

  /** Step three, `replace(/[\s_]+/g, '-')`: every maximal run of white
      space and underscores becomes one dash. */
  function CollapseGaps(s: string): (r: string)
    ensures NoGap(r)
    decreases |s|
  {
    if |s| == 0 then ""
    else if Gap(s[0]) then "-" + CollapseGaps(s[GapRun(s)..])
    else [s[0]] + CollapseGaps(s[1..])
  }

  /** Step three adds nothing but dashes. */
  lemma {:induction false} CollapseGapsKeepsChars(s: string)
    ensures forall c :: c in CollapseGaps(s) ==> c in s || c == '-'
    decreases |s|
  {
    if |s| > 0 {
      if Gap(s[0]) {
        CollapseGapsKeepsChars(s[GapRun(s)..]);
      } else {
        CollapseGapsKeepsChars(s[1..]);
      }
    }
  }

  /** Without gap characters, step three changes nothing. */
  lemma {:induction false} CollapseGapsNoGap(s: string)
    requires NoGap(s)
    ensures CollapseGaps(s) == s
    decreases |s|
  {
    if |s| > 0 {
      CollapseGapsNoGap(s[1..]);
      assert s == [s[0]] + s[1..];
    }
  }

  function LowerChar(c: char): char {
    if IsUpper(c) then (c - 'A' + 'a') as char else c
  }

  /** Step four, `toLowerCase()` on ASCII. */
  function Lower(s: string): (r: string)
    ensures |r| == |s| && NoUpper(r)
    ensures forall i :: 0 <= i < |s| ==> r[i] == LowerChar(s[i])
    ensures NoGap(s) ==> NoGap(r)
    ensures forall c :: c in r ==> c in s || IsLower(c)
  {
    seq(|s|, i requires 0 <= i < |s| => LowerChar(s[i]))
  }

  /** `toKebabCase(str)`: the four steps in order. The result has no
      capitals, no white space and no underscores, and a name without a
      separator stays without one. */
  function ToKebabCase(s: string): (r: string)
    ensures NoUpper(r) && NoGap(r)
    ensures '/' !in s ==> '/' !in r
  {
    CamelBreaksAddsOnlyDashes(s);
    AcronymBreaksAddsOnlyDashes(CamelBreaks(s));
    CollapseGapsKeepsChars(AcronymBreaks(CamelBreaks(s)));
    Lower(CollapseGaps(AcronymBreaks(CamelBreaks(s))))
  }

  /** A string of lower-case words joined by dashes, digits allowed, is
      already in kebab case: the steps change nothing, so `toKebabCase` is
      idempotent. */
  lemma ToKebabCaseIdempotent(s: string)
    ensures ToKebabCase(ToKebabCase(s)) == ToKebabCase(s)
  {
    var r := ToKebabCase(s);
    CamelBreaksNoUpper(r);
    AcronymBreaksNoUpper(r);
    CollapseGapsNoGap(r);
    assert Lower(r) == r;
  }

  /** A run of gap characters between two words becomes a single dash;
      the words on either side are converted on their own. */
  lemma {:induction false} CollapseGapsRun(a: string, g: string, b: string)
    requires |g| > 0 && forall i :: 0 <= i < |g| ==> Gap(g[i])
    requires |a| == 0 || !Gap(a[|a| - 1])
    requires |b| == 0 || !Gap(b[0])
    ensures CollapseGaps(a + (g + b)) == CollapseGaps(a) + "-" + CollapseGaps(b)
    decreases |a|, 1
  {
    if |a| == 0 {
      assert a + (g + b) == g + b;
      CollapseGapsLeadingRun(g, b);
    } else {
      CollapseGapsRunStep(a, g, b);
    }
  }

  /** The inductive step of `CollapseGapsRun`: drop the word's first
      character, or its leading gap run. */
  lemma {:induction false} CollapseGapsRunStep(a: string, g: string, b: string)
    requires |g| > 0 && forall i :: 0 <= i < |g| ==> Gap(g[i])
    requires |a| > 0 && !Gap(a[|a| - 1])
    requires |b| == 0 || !Gap(b[0])
    ensures CollapseGaps(a + (g + b)) == CollapseGaps(a) + "-" + CollapseGaps(b)
    decreases |a|, 0
  {
    var n := if Gap(a[0]) then GapRun(a) else 1;
    SuffixEnd(a, n);
    CollapseGapsRun(a[n..], g, b);
    if Gap(a[0]) {
      RunAfterGaps(a, g + b, b);
    } else {
      RunAfterPlain(a, g + b, b);
    }
  }

  /** A non-empty suffix ends where the whole does. */
  lemma SuffixEnd(a: string, n: nat)
    requires 0 < n <= |a| && !Gap(a[|a| - 1])
    ensures n <= |a| && (|a[n..]| == 0 || !Gap(a[n..][|a[n..]| - 1]))
    ensures |a[n..]| < |a|
  {
  }

  /** The step of `CollapseGapsRun` when the word starts with gaps. */
  lemma RunAfterGaps(a: string, rest: string, b: string)
    requires |a| > 0 && Gap(a[0]) && !Gap(a[|a| - 1])
    requires CollapseGaps(a[GapRun(a)..] + rest) == CollapseGaps(a[GapRun(a)..]) + "-" + CollapseGaps(b)
    ensures CollapseGaps(a + rest) == CollapseGaps(a) + "-" + CollapseGaps(b)
  {
    GapCase(a, rest);
  }

  /** The step of `CollapseGapsRun` when the word starts with a kept
      character. */
  lemma RunAfterPlain(a: string, rest: string, b: string)
    requires |a| > 0 && !Gap(a[0])
    requires CollapseGaps(a[1..] + rest) == CollapseGaps(a[1..]) + "-" + CollapseGaps(b)
    ensures CollapseGaps(a + rest) == CollapseGaps(a) + "-" + CollapseGaps(b)
  {
    PlainCase(a, rest);
    CollapseGapsPlain(a[0], a[1..]);
    assert [a[0]] + a[1..] == a;
    ConsDash(a[0], CollapseGaps(a[1..]), CollapseGaps(b));
  }

  lemma ConsDash(c: char, x: string, y: string)
    ensures [c] + (x + "-" + y) == ([c] + x) + "-" + y
  {
  }

  /** The step of `CollapseGapsRun` for a word that starts with gaps. */
  lemma GapCase(a: string, rest: string)
    requires |a| > 0 && Gap(a[0]) && !Gap(a[|a| - 1])
    ensures CollapseGaps(a + rest) == "-" + CollapseGaps(a[GapRun(a)..] + rest)
    ensures CollapseGaps(a) == "-" + CollapseGaps(a[GapRun(a)..])
  {
    var n := GapRun(a);
    var head, tail := a[..n], a[n..];
    assert forall i :: 0 <= i < |head| ==> Gap(head[i]);
    assert tail[0] == a[n];
    GapHeadCase(head, tail, rest);
    assert head + tail == a;
  }

  /** The step of `CollapseGapsRun` for a word that starts with a kept
      character. */
  lemma PlainCase(a: string, rest: string)
    requires |a| > 0 && !Gap(a[0])
    ensures CollapseGaps(a + rest) == [a[0]] + CollapseGaps(a[1..] + rest)
  {
    CollapseGapsPlain(a[0], a[1..] + rest);
    assert [a[0]] + (a[1..] + rest) == a + rest;
  }

  /** Putting a run of gap characters in front of both sides. */
  lemma GapHeadCase(head: string, tail: string, rest: string)
    requires |head| > 0 && forall i :: 0 <= i < |head| ==> Gap(head[i])
    requires |tail| > 0 && !Gap(tail[0])
    ensures CollapseGaps(head + tail + rest) == "-" + CollapseGaps(tail + rest)
    ensures CollapseGaps(head + tail) == "-" + CollapseGaps(tail)
  {
    var tr := tail + rest;
    assert tr[0] == tail[0];
    CollapseGapsLeadingRun(head, tr);
    CollapseGapsLeadingRun(head, tail);
    Regroup(head, tail, rest);
  }

  /** A leading run of gap characters becomes one dash. */
  lemma CollapseGapsLeadingRun(g: string, rest: string)
    requires |g| > 0 && forall i :: 0 <= i < |g| ==> Gap(g[i])
    requires |rest| == 0 || !Gap(rest[0])
    ensures CollapseGaps(g + rest) == "-" + CollapseGaps(rest)
  {
    GapRunIs(g + rest, |g|);
    assert (g + rest)[|g|..] == rest;
  }

  /** A character that is no gap is kept. */
  lemma CollapseGapsPlain(c: char, rest: string)
    requires !Gap(c)
    ensures CollapseGaps([c] + rest) == [c] + CollapseGaps(rest)
  {
    assert ([c] + rest)[1..] == rest;
  }

  lemma GapRunIs(s: string, n: nat)
    requires n <= |s| && forall i :: 0 <= i < n ==> Gap(s[i])
    requires n < |s| ==> !Gap(s[n])
    ensures GapRun(s) == n
  {
    var m := GapRun(s);
  }

  /** Step one keeps a character that does not start a hump. */
  lemma CamelKeep(c: char, t: string)
    requires |t| > 0 && !((IsLower(c) || IsDigit(c)) && IsUpper(t[0]))
    ensures CamelBreaks([c] + t) == [c] + CamelBreaks(t)
  {
    assert ([c] + t)[1..] == t;
  }

  /** Step one splits a hump. */
  lemma CamelSplit(a: char, b: char, t: string)
    requires (IsLower(a) || IsDigit(a)) && IsUpper(b)
    ensures CamelBreaks([a, b] + t) == [a, '-', b] + CamelBreaks(t)
  {
    assert ([a, b] + t)[2..] == t;
  }

  /** Step two keeps a character that does not end a run of capitals
      before a word. */
  lemma AcronymKeep(c: char, t: string)
    requires |t| > 1 && !(IsUpper(c) && IsUpper(t[0]) && IsLower(t[1]))
    ensures AcronymBreaks([c] + t) == [c] + AcronymBreaks(t)
  {
    assert ([c] + t)[1..] == t;
  }

  /** Step two splits a run of capitals before a word. */
  lemma AcronymSplit(a: char, b: char, c: char, t: string)
    requires IsUpper(a) && IsUpper(b) && IsLower(c)
    ensures AcronymBreaks([a, b, c] + t) == [a, '-', b, c] + AcronymBreaks(t)
  {
    assert ([a, b, c] + t)[3..] == t;
  }

  /** Step one on `myApp`. */
  lemma MyAppCamel()
    ensures CamelBreaks("myApp") == "my-App"
  {
    assert CamelBreaks("pp") == "pp";
    CamelSplit('y', 'A', "pp");
    assert ['y', 'A'] + "pp" == "yApp";
    CamelKeep('m', "yApp");
    assert ['m'] + "yApp" == "myApp";
  }

  /** The four steps on `myApp`. */
  lemma MyAppSteps()
    ensures CamelBreaks("myApp") == "my-App"
    ensures AcronymBreaks("my-App") == "my-App"
    ensures CollapseGaps("my-App") == "my-App"
    ensures Lower("my-App") == "my-app"
  {
    MyAppCamel();
    MyAppAcronym();
    MyAppCollapse();
    MyAppLower();
  }

  /** Step three leaves `my-App` alone. */
  lemma MyAppCollapse()
    ensures CollapseGaps("my-App") == "my-App"
  {
    assert NoGap("my-App") by {
      forall i | 0 <= i < |"my-App"|
        ensures !Gap("my-App"[i])
      {
        assert "my-App"[i] in "my-App";
      }
    }
    CollapseGapsNoGap("my-App");
  }

  /** Step four on `my-App`. */
  lemma MyAppLower()
    ensures Lower("my-App") == "my-app"
  {
    var r := Lower("my-App");
    assert r[3] == LowerChar('A') == 'a';
    assert r == "my-app";
  }

  /** Step two on `my-App`. */
  lemma MyAppAcronym()
    ensures AcronymBreaks("my-App") == "my-App"
  {
    assert AcronymBreaks("pp") == "pp";
    AcronymKeep('A', "pp");
    assert ['A'] + "pp" == "App";
    AcronymKeep('-', "App");
    assert ['-'] + "App" == "-App";
    AcronymKeep('y', "-App");
    assert ['y'] + "-App" == "y-App";
    AcronymKeep('m', "y-App");
    assert ['m'] + "y-App" == "my-App";
  }

  /** A capital after a lower-case letter starts a new word. */
  lemma KebabMyApp()
    ensures ToKebabCase("myApp") == "my-app"
  {
    MyAppSteps();
  }

  /** Steps one and two on `IDCard`. */
  lemma IdCardBreaks()
    ensures CamelBreaks("IDCard") == "IDCard"
    ensures AcronymBreaks("IDCard") == "ID-Card"
  {
    CamelBreaksNoHump("IDCard");
    assert AcronymBreaks("ard") == "ard";
    AcronymSplit('D', 'C', 'a', "rd");
    assert ['D', 'C', 'a'] + "rd" == "DCard";
    AcronymKeep('I', "DCard");
    assert ['I'] + "DCard" == "IDCard";
  }

  /** Step one changes nothing in a text where no lower-case letter or
      digit precedes a capital. */
  lemma {:induction false} CamelBreaksNoHump(s: string)
    requires forall i :: 0 <= i < |s| - 1 ==> !((IsLower(s[i]) || IsDigit(s[i])) && IsUpper(s[i + 1]))
    ensures CamelBreaks(s) == s
    decreases |s|
  {
    if |s| >= 2 {
      CamelBreaksNoHump(s[1..]);
      assert s == [s[0]] + s[1..];
    }
  }

  /** Steps three and four on `ID-Card`. */
  lemma IdCardFinish()
    ensures CollapseGaps("ID-Card") == "ID-Card"
    ensures Lower("ID-Card") == "id-card"
  {
    IdCardCollapse();
    IdCardLower();
  }

  lemma IdCardCollapse()
    ensures CollapseGaps("ID-Card") == "ID-Card"
  {
    assert NoGap("ID-Card") by {
      forall i | 0 <= i < |"ID-Card"|
        ensures !Gap("ID-Card"[i])
      {
        assert "ID-Card"[i] in "ID-Card";
      }
    }
    CollapseGapsNoGap("ID-Card");
  }

  lemma IdCardLower()
    ensures Lower("ID-Card") == "id-card"
  {
    var r := Lower("ID-Card");
    assert r[0] == LowerChar('I') == 'i';
    assert r[1] == LowerChar('D') == 'd';
    assert r[3] == LowerChar('C') == 'c';
    assert r == "id-card";
  }

  /** A run of capitals ends before the capital that starts the next word. */
  lemma KebabIdCard()
    ensures ToKebabCase("IDCard") == "id-card"
  {
    IdCardBreaks();
    IdCardFinish();
  }

  /** Steps one and two on `my_app`. */
  lemma SnakeBreaks()
    ensures CamelBreaks("my_app") == "my_app"
    ensures AcronymBreaks("my_app") == "my_app"
  {
    CamelBreaksNoUpper("my_app");
    AcronymBreaksNoUpper("my_app");
  }

  /** Step three on `my_app`. */
  lemma SnakeCollapse()
    ensures CollapseGaps("my_app") == "my-app"
  {
    SnakeWords();
    WordKept("my");
    WordKept("app");
    CollapseGapsRun("my", "_", "app");
  }

  lemma SnakeWords()
    ensures "my" + ("_" + "app") == "my_app" && "my" + "-" + "app" == "my-app"
  {
  }

  /** A word of lower-case letters passes step three unchanged. */
  lemma WordKept(w: string)
    requires forall i :: 0 <= i < |w| ==> IsLower(w[i])
    ensures CollapseGaps(w) == w
  {
    CollapseGapsNoGap(w);
  }

  /** An underscore between words becomes a dash. */
  lemma KebabSnakeCase()
    ensures ToKebabCase("my_app") == "my-app"
  {
    SnakeBreaks();
    SnakeCollapse();
    SnakeLower();
  }

  /** Step four leaves `my-app` alone. */
  lemma SnakeLower()
    ensures Lower("my-app") == "my-app"
  {
    var r := Lower("my-app");
    assert r == "my-app";
  }

  // ---------------------------------------------------------------------
  // File names
  // ---------------------------------------------------------------------

  /** What `writeAngularFiles` does and returns. */
  datatype AngularWritten = AngularWritten(effects: seq<Effect>, componentPath: string, templatePath: string)

  const AngularComponentSuffix := ".component.ts"
  const TemplateSuffix := ".component.html"

  lemma AngularSuffixes()
    ensures FileSuffix(AngularComponentSuffix) && FileSuffix(TemplateSuffix)
    ensures |AngularComponentSuffix| == 13 && |TemplateSuffix| == 15
  {
    NoSeparator(AngularComponentSuffix);
    NoSeparator(TemplateSuffix);
  }

  /** `writeAngularFiles(component, outputDir, parsed)`: the directory is
      created, then the component and the template are written verbatim
      under the kebab-case name, and both paths are returned. */
  function WriteAngularFiles(name: string, fullPath: string, outputDir: Option<string>,
                             component: string, template: string): (w: AngularWritten)
    ensures |w.effects| == 3 && w.effects[0] == EnsureDir(TargetDir(outputDir, fullPath))
    ensures w.effects[1] == WriteFile(w.componentPath, component)
    ensures w.effects[2] == WriteFile(w.templatePath, template)
    ensures w.componentPath == Join(TargetDir(outputDir, fullPath), ToKebabCase(name) + AngularComponentSuffix)
    ensures w.templatePath == Join(TargetDir(outputDir, fullPath), ToKebabCase(name) + TemplateSuffix)
  {
    var targetDir := TargetDir(outputDir, fullPath);
    var componentPath := Join(targetDir, ToKebabCase(name) + AngularComponentSuffix);
    var templatePath := Join(targetDir, ToKebabCase(name) + TemplateSuffix);
    AngularWritten([EnsureDir(targetDir), WriteFile(componentPath, component), WriteFile(templatePath, template)],
                   componentPath, templatePath)
  }

  /** `savePartialAngularOutput(component, outputDir, content)`: the content
      is written verbatim to `<kebab-name>.partial.txt`. */
  function SavePartialAngularOutput(name: string, fullPath: string, outputDir: Option<string>,
                                    content: string): (r: (seq<Effect>, string))
    ensures r.0 == [EnsureDir(TargetDir(outputDir, fullPath)), WriteFile(r.1, content)]
    ensures r.1 == Join(TargetDir(outputDir, fullPath), ToKebabCase(name) + PartialSuffix)
  {
    var targetDir := TargetDir(outputDir, fullPath);
    var partialPath := Join(targetDir, ToKebabCase(name) + PartialSuffix);
    ([EnsureDir(targetDir), WriteFile(partialPath, content)], partialPath)
  }

  /** With a canonical target directory and a separator-free name, the
      three output files lie directly in the target directory under the
      kebab-case name, and are pairwise distinct. */
  lemma AngularOutputFilesInTarget(name: string, fullPath: string, outputDir: Option<string>,
                                   component: string, template: string, content: string)
    requires Canonical(TargetDir(outputDir, fullPath)) && '/' !in name
    ensures var w := WriteAngularFiles(name, fullPath, outputDir, component, template);
            var p := SavePartialAngularOutput(name, fullPath, outputDir, content).1;
            var d := TargetDir(outputDir, fullPath);
            var k := ToKebabCase(name);
            && Dirname(w.componentPath) == d && LastPiece(w.componentPath) == k + AngularComponentSuffix
            && Dirname(w.templatePath) == d && LastPiece(w.templatePath) == k + TemplateSuffix
            && Dirname(p) == d && LastPiece(p) == k + PartialSuffix
            && w.componentPath != w.templatePath && w.componentPath != p && w.templatePath != p
  {
    var w := WriteAngularFiles(name, fullPath, outputDir, component, template);
    var p := SavePartialAngularOutput(name, fullPath, outputDir, content).1;
    var d := TargetDir(outputDir, fullPath);
    var k := ToKebabCase(name);
    OutputSuffixes();
    AngularSuffixes();
    PlacedInTarget(d, k, AngularComponentSuffix);
    PlacedInTarget(d, k, TemplateSuffix);
    PlacedInTarget(d, k, PartialSuffix);
    SuffixesSeparate(w.componentPath, w.templatePath, k, AngularComponentSuffix, TemplateSuffix);
    SuffixesSeparate(w.componentPath, p, k, AngularComponentSuffix, PartialSuffix);
    SuffixesSeparate(w.templatePath, p, k, TemplateSuffix, PartialSuffix);
  }
}
