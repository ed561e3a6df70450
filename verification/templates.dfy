/** What both prompt builders share: mapping tables rendered as
    `key → value` lines, and a template filled by a fixed chain of
    first-occurrence replacements. */
module Templates {
  import opened Wrappers
  import opened Strings

  /** The separator between a key and its value in a rendered table. */
  const Arrow := " → "

  /** The line one mapping entry renders to. */
  function EntryLine(key: string, value: string): string {
    key + Arrow + value
  }

  /** The lines of a table, in entry order. */
  function EntryLines(entries: seq<(string, string)>): seq<string> {
    seq(|entries|, i requires 0 <= i < |entries| => EntryLine(entries[i].0, entries[i].1))
  }

  /** `Object.entries(table).map(([k, v]) => `${k} → ${v}`).join('\n')`:
      every line carries the arrow, so only the empty table renders as the
      empty string. */
  function RenderMappings(entries: seq<(string, string)>): (r: string)
    ensures r == "" <==> |entries| == 0
    ensures |entries| > 0 ==> StartsWith(r, EntryLine(entries[0].0, entries[0].1))
  {
    var lines := EntryLines(entries);
    assert |lines| > 0 ==> JoinWith(lines, "\n")[..|lines[0]|] == lines[0];
    JoinWith(lines, "\n")
  }

  /** A rendered line read back: the key is everything before the first
      arrow, the value everything after it. */
  function ParseEntry(line: string): (r: Option<(string, string)>)
    ensures r.Some? <==> Contains(line, Arrow)
    ensures r.Some? ==> EntryLine(r.value.0, r.value.1) == line && !Contains(r.value.0, Arrow)
  {
    var k := IndexOf(line, Arrow);
    if k < 0 then None
    else
      assert line == line[..k] + line[k..k + |Arrow|] + line[k + |Arrow|..];
      BeforeFirst(line, Arrow);
      Some((line[..k], line[k + |Arrow|..]))
  }

  /** Every line of a list read back, or `None` when one has no arrow. */
  function ParseLines(lines: seq<string>): (r: Option<seq<(string, string)>>)
    ensures r.Some? ==> |r.value| == |lines|
    ensures r.Some? <==> forall i :: 0 <= i < |lines| ==> ParseEntry(lines[i]).Some?
  {
    if |lines| == 0 then Some([])
    else
      var e := ParseEntry(lines[0]);
      var es := ParseLines(lines[1..]);
      assert forall i :: 1 <= i < |lines| ==> lines[i] == lines[1..][i - 1];
      if e.Some? && es.Some? then Some([e.value] + es.value) else None
  }

  /** A rendered table read back: the empty text is the empty table,
      otherwise every line must hold an entry. */
  function ParseMappings(text: string): (r: Option<seq<(string, string)>>)
    ensures text == "" ==> r == Some([])
  {
    if text == "" then Some([]) else ParseLines(SplitOn(text, "\n"))
  }

  /** Keys and values a rendered table can carry unambiguously: no line
      break anywhere, and no arrow character inside a key. */
  predicate Readable(entries: seq<(string, string)>) {
    forall i :: 0 <= i < |entries| ==>
      '\n' !in entries[i].0 && '\n' !in entries[i].1 && '→' !in entries[i].0
  }

  /** Splitting a joined list on a one-character separator that no piece
      holds gives the list back. */
  lemma {:induction false} SplitJoin(parts: seq<string>, c: char)
    requires |parts| > 0 && forall i :: 0 <= i < |parts| ==> c !in parts[i]
    ensures SplitOn(JoinWith(parts, [c]), [c]) == parts
    decreases |parts|
  {
    NotContainsByChar(parts[0], [c], 0);
    SplitWithout(parts[0], [c]);
    if |parts| > 1 {
      SplitJoin(parts[1..], c);
      SplitAppend(parts[0], c, JoinWith(parts[1..], [c]));
      assert parts == [parts[0]] + parts[1..];
    }
  }

  /** The line an entry renders to parses back to the entry when the key
      holds no arrow character. */
  lemma EntryRoundTrip(key: string, value: string)
    requires '→' !in key
    ensures ParseEntry(EntryLine(key, value)) == Some((key, value))
  {
    var line := EntryLine(key, value);
    assert OccursAt(line, Arrow, |key|);
    forall j | 0 <= j < |key|
      ensures !OccursAt(line, Arrow, j)
    {
      if OccursAt(line, Arrow, j) {
        OccursCharAt(line, Arrow, j, j + 1);
      }
    }
    IndexOfIs(line, Arrow, |key|);
    assert line[..|key|] == key;
    assert line[|key| + |Arrow|..] == value;
  }

  /** A readable table renders to a text that parses back to the same
      table. */
  lemma RenderParse(entries: seq<(string, string)>)
    requires Readable(entries)
    ensures ParseMappings(RenderMappings(entries)) == Some(entries)
  {
    if |entries| > 0 {
      var lines := EntryLines(entries);
      forall i | 0 <= i < |lines|
        ensures '\n' !in lines[i]
      {
        assert lines[i] == entries[i].0 + Arrow + entries[i].1;
      }
      SplitJoin(lines, '\n');
      LinesParse(entries);
    }
  }

  lemma {:induction false} LinesParse(entries: seq<(string, string)>)
    requires Readable(entries)
    ensures ParseLines(EntryLines(entries)) == Some(entries)
    decreases |entries|
  {
    if |entries| > 0 {
      var lines := EntryLines(entries);
      EntryRoundTrip(entries[0].0, entries[0].1);
      assert lines[1..] == EntryLines(entries[1..]);
      LinesParse(entries[1..]);
      assert entries == [entries[0]] + entries[1..];
    }
  }

  /** A text that parses as a table is exactly what that table renders
      to. */
  lemma ParseRender(text: string, entries: seq<(string, string)>)
    requires ParseMappings(text) == Some(entries)
    ensures RenderMappings(entries) == text
  {
    if text != "" {
      var lines := SplitOn(text, "\n");
      LinesRender(lines, entries);
      JoinSplit(text, "\n");
    }
  }

  lemma {:induction false} LinesRender(lines: seq<string>, entries: seq<(string, string)>)
    requires ParseLines(lines) == Some(entries)
    ensures EntryLines(entries) == lines
    decreases |lines|
  {
    if |lines| > 0 {
      LinesRender(lines[1..], ParseLines(lines[1..]).value);
      LinesRenderStep(lines, entries);
    }
  }

  lemma LinesRenderStep(lines: seq<string>, entries: seq<(string, string)>)
    requires |lines| > 0 && ParseLines(lines) == Some(entries)
    requires ParseLines(lines[1..]).Some? && EntryLines(ParseLines(lines[1..]).value) == lines[1..]
    ensures EntryLines(entries) == lines
  {
    var e := ParseEntry(lines[0]);
    var es := ParseLines(lines[1..]);
    assert e.Some? && entries == [e.value] + es.value by {
      ParseLinesCons(lines);
    }
    assert entries[1..] == es.value;
    assert entries[0] == e.value;
    EntryLinesCons(entries);
    assert lines == [lines[0]] + lines[1..];
  }

  lemma ParseLinesCons(lines: seq<string>)
    requires |lines| > 0
    ensures ParseLines(lines)
            == var e, es := ParseEntry(lines[0]), ParseLines(lines[1..]);
               if e.Some? && es.Some? then Some([e.value] + es.value) else None
  {
  }

  lemma EntryLinesCons(entries: seq<(string, string)>)
    requires |entries| > 0
    ensures EntryLines(entries) == [EntryLine(entries[0].0, entries[0].1)] + EntryLines(entries[1..])
  {
    assert EntryLines(entries)[1..] == EntryLines(entries[1..]);
  }

  /** One `.replace(placeholder, value)` of a chain. */
  datatype Step = Step(placeholder: string, value: string)

  /** Values that `String.prototype.replace` inserts as they stand. */
  predicate Insertable(steps: seq<Step>) {
    forall i :: 0 <= i < |steps| ==> Plain(steps[i].value)
  }

  /** The chain `template.replace(p1, v1).replace(p2, v2)…` in step order;
      a template holding none of the placeholders passes unchanged. */
  function Fill(t: string, steps: seq<Step>): (r: string)
    ensures (forall i :: 0 <= i < |steps| ==> !Contains(t, steps[i].placeholder)) ==> r == t
    decreases |steps|
  {
    if |steps| == 0 then t
    else
      assert forall i :: 0 <= i < |steps| - 1 ==> steps[1..][i] == steps[i + 1];
      Fill(ReplaceFirst(t, steps[0].placeholder, steps[0].value), steps[1..])
  }

  /** Running a chain in two parts is running it whole. */
  lemma {:induction false} FillAppend(t: string, a: seq<Step>, b: seq<Step>)
    ensures Fill(t, a + b) == Fill(Fill(t, a), b)
    decreases |a|
  {
    if |a| == 0 {
      assert a + b == b;
    } else {
      assert (a + b)[0] == a[0];
      assert (a + b)[1..] == a[1..] + b;
      FillAppend(ReplaceFirst(t, a[0].placeholder, a[0].value), a[1..], b);
    }
  }

  /** A placeholder of the form `{{NAME}}` with no brace inside the name. */
  predicate Braced(p: string) {
    && |p| >= 4 && p[0] == '{' && p[1] == '{' && p[|p| - 2] == '}' && p[|p| - 1] == '}'
    && forall j :: 2 <= j < |p| - 2 ==> p[j] != '{' && p[j] != '}'
  }

  /** No proper prefix of `p` is also a suffix of it. */
  predicate Unbordered(p: string) {
    forall d :: 0 < d < |p| ==> p[d..] != p[..|p| - d]
  }

  /** The placeholder `{{NAME}}` of a name. */
  function Placeholder(name: string): string {
    "{{" + name + "}}"
  }

  /** Names whose placeholders a chain can tell apart: no brace inside,
      and no two alike. */
  predicate NamesApart(names: seq<string>) {
    && (forall i :: 0 <= i < |names| ==> '{' !in names[i] && '}' !in names[i])
    && (forall i, i' :: 0 <= i < i' < |names| ==> names[i] != names[i'])
  }

  lemma PlaceholderBraced(name: string)
    requires '{' !in name && '}' !in name
    ensures Braced(Placeholder(name))
  {
    var p := Placeholder(name);
    forall j | 2 <= j < |p| - 2
      ensures p[j] != '{' && p[j] != '}'
    {
      assert p[j] == name[j - 2];
    }
  }

  lemma PlaceholdersDiffer(a: string, b: string)
    requires a != b
    ensures Placeholder(a) != Placeholder(b)
  {
    assert Placeholder(a)[2..|Placeholder(a)| - 2] == a;
    assert Placeholder(b)[2..|Placeholder(b)| - 2] == b;
  }

  /** Braced placeholders, pairwise different. */
  predicate Apart(steps: seq<Step>) {
    && (forall i :: 0 <= i < |steps| ==> Braced(steps[i].placeholder))
    && (forall i, i' :: 0 <= i < |steps| && 0 <= i' < |steps| && i != i' ==>
          steps[i].placeholder != steps[i'].placeholder)
  }

  /** A chain whose placeholders are those of apart names is apart. */
  lemma NamedApart(names: seq<string>, steps: seq<Step>)
    requires NamesApart(names) && |steps| == |names|
    requires forall i :: 0 <= i < |steps| ==> steps[i].placeholder == Placeholder(names[i])
    ensures Apart(steps)
  {
    forall i | 0 <= i < |steps|
      ensures Braced(steps[i].placeholder)
    {
      PlaceholderBraced(names[i]);
    }
    forall i, i' | 0 <= i < |steps| && 0 <= i' < |steps| && i != i'
      ensures steps[i].placeholder != steps[i'].placeholder
    {
      if i < i' {
        PlaceholdersDiffer(names[i], names[i']);
      } else {
        PlaceholdersDiffer(names[i'], names[i]);
      }
    }
  }

  /** A text that is exactly the pattern is replaced whole, by the
      replacement expanded against an empty before and after. */
  lemma ReplaceWhole(p: string, v: string)
    requires |p| > 0
    ensures ReplaceFirst(p, p, v) == Expand(v, "", p, "")
  {
    assert OccursAt(p, p, 0);
    assert IndexOf(p, p) == 0;
    assert p[..0] == "" && p[|p|..] == "";
  }

  /** In an apart chain no placeholder occurs in another one. */
  lemma OthersAbsent(steps: seq<Step>, k: nat)
    requires Apart(steps) && k < |steps|
    ensures forall i :: 0 <= i < |steps| && i != k ==> !Contains(steps[k].placeholder, steps[i].placeholder)
  {
    forall i | 0 <= i < |steps| && i != k
      ensures !Contains(steps[k].placeholder, steps[i].placeholder)
    {
      BracedApart(steps[i].placeholder, steps[k].placeholder);
    }
  }

  /** A text starting with the placeholder of step `k`, followed by text
      lacking the placeholders of the steps from `m` up to `k`, goes through
      those steps untouched and then has that placeholder replaced. */
  lemma FillLeading(steps: seq<Step>, m: nat, k: nat, tail: string)
    requires Insertable(steps) && Apart(steps) && m <= k < |steps|
    requires forall i :: m <= i < k ==> !Contains(tail, steps[i].placeholder)
    ensures Insertable(steps[m..]) && Insertable(steps[k + 1..])
    ensures Fill(steps[k].placeholder + tail, steps[m..]) == Fill(steps[k].value + tail, steps[k + 1..])
  {
    var p := steps[k].placeholder;
    var rest := steps[m..];
    LeadingAbsent(steps, m, k, tail);
    FillThrough(p + tail, rest, k - m);
    assert rest[k - m..] == steps[k..];
    assert steps[k..][0] == steps[k] && steps[k..][1..] == steps[k + 1..];
    ReplaceLeading(p, tail, steps[k].value);
  }

  /** The placeholders of the steps before `k` are missing from a text
      that starts with the placeholder of step `k`. */
  lemma LeadingAbsent(steps: seq<Step>, m: nat, k: nat, tail: string)
    requires Apart(steps) && m <= k < |steps|
    requires forall i :: m <= i < k ==> !Contains(tail, steps[i].placeholder)
    ensures forall i :: 0 <= i < k - m ==> !Contains(steps[k].placeholder + tail, steps[m..][i].placeholder)
  {
    var p := steps[k].placeholder;
    forall i | 0 <= i < k - m
      ensures !Contains(p + tail, steps[m..][i].placeholder)
    {
      var q := steps[m + i].placeholder;
      assert steps[m..][i] == steps[m + i];
      BracedApart(q, p);
      assert "" + p + tail == p + tail;
      BracedSplit("", p, tail, q);
    }
  }

  /** A text starting with a braced placeholder has that occurrence
      replaced. */
  lemma ReplaceLeading(p: string, tail: string, v: string)
    requires Braced(p) && Plain(v)
    ensures ReplaceFirst(p + tail, p, v) == v + tail
  {
    BracedUnbordered(p);
    assert "" + p + tail == p + tail;
    ReplacePlaced("", p, tail, v);
    assert "" + v + tail == v + tail;
  }

  /** Steps whose placeholders a text lacks leave it to the rest of the
      chain. */
  lemma FillThrough(t: string, steps: seq<Step>, k: nat)
    requires Insertable(steps) && k <= |steps|
    requires forall i :: 0 <= i < k ==> !Contains(t, steps[i].placeholder)
    ensures Insertable(steps[k..])
    ensures Fill(t, steps) == Fill(t, steps[k..])
  {
    assert steps == steps[..k] + steps[k..];
    FillAppend(t, steps[..k], steps[k..]);
  }

  /** A table whose keys and values lack a character. */
  predicate TableLacks(entries: seq<(string, string)>, ch: char) {
    forall i :: 0 <= i < |entries| ==> ch !in entries[i].0 && ch !in entries[i].1
  }

  /** A table whose keys and values are all plain. */
  predicate TablePlain(entries: seq<(string, string)>) {
    forall i :: 0 <= i < |entries| ==> Plain(entries[i].0) && Plain(entries[i].1)
  }

  /** A table of plain keys and values renders to a plain text: the arrow
      and the line break that follow a key or a value start with no
      character a `$` would make special. */
  lemma RenderPlain(entries: seq<(string, string)>)
    requires TablePlain(entries)
    ensures Plain(RenderMappings(entries))
  {
    var lines := EntryLines(entries);
    forall i | 0 <= i < |lines|
      ensures Plain(lines[i])
    {
      assert lines[i] == entries[i].0 + Arrow + entries[i].1;
      PlainConcat(entries[i].0, Arrow);
      PlainConcat(entries[i].0 + Arrow, entries[i].1);
    }
    JoinPlain(lines);
  }

  /** Plain lines joined by line breaks stay plain. */
  lemma {:induction false} JoinPlain(lines: seq<string>)
    requires forall i :: 0 <= i < |lines| ==> Plain(lines[i])
    ensures Plain(JoinWith(lines, "\n"))
    decreases |lines|
  {
    if |lines| > 1 {
      JoinPlain(lines[1..]);
      PlainConcat(lines[0], "\n");
      PlainConcat(lines[0] + "\n", JoinWith(lines[1..], "\n"));
    }
  }

  lemma RenderLacks(entries: seq<(string, string)>, ch: char)
    requires TableLacks(entries, ch) && ch !in Arrow && ch != '\n'
    ensures ch !in RenderMappings(entries)
  {
    var lines := EntryLines(entries);
    forall i | 0 <= i < |lines|
      ensures ch !in lines[i]
    {
      assert lines[i] == entries[i].0 + Arrow + entries[i].1;
    }
    JoinLacks(lines, "\n", ch);
  }

  lemma BracedUnbordered(p: string)
    requires Braced(p)
    ensures Unbordered(p)
  {
    forall d | 0 < d < |p|
      ensures p[d..] != p[..|p| - d]
    {
      if d == 1 {
        assert p[d..][1] != p[..|p| - d][1];
      } else {
        assert p[d..][0] != p[..|p| - d][0];
      }
    }
  }

  /** Two occurrences of `p` that overlap make a border of `p`. */
  lemma OverlapBorder(t: string, p: string, j: nat, k: nat)
    requires OccursAt(t, p, j) && OccursAt(t, p, k) && j < k < j + |p|
    ensures p[k - j..] == p[..|p| - (k - j)]
  {
    var d := k - j;
    forall i | 0 <= i < |p| - d
      ensures p[d..][i] == p[..|p| - d][i]
    {
      OccursCharAt(t, p, j, k + i);
      OccursCharAt(t, p, k, k + i);
    }
  }

  /** An unbordered pattern placed after a text lacking it is first found
      where it was placed. */
  lemma FirstAfter(pre: string, p: string, post: string)
    requires |p| > 0 && Unbordered(p) && !Contains(pre, p)
    ensures IndexOf(pre + p + post, p) == |pre|
  {
    var t := pre + p + post;
    assert t[|pre|..|pre| + |p|] == p;
    forall j | 0 <= j < |pre|
      ensures !OccursAt(t, p, j)
    {
      if OccursAt(t, p, j) {
        if j + |p| <= |pre| {
          assert pre[j..j + |p|] == t[j..j + |p|];
          ContainsAt(pre, p, j);
        } else {
          OverlapBorder(t, p, j, |pre|);
        }
      }
    }
    IndexOfIs(t, p, |pre|);
  }

  /** Replacing the first occurrence of such a pattern swaps exactly the
      placed copy. */
  lemma ReplacePlaced(pre: string, p: string, post: string, v: string)
    requires |p| > 0 && Unbordered(p) && !Contains(pre, p) && Plain(v)
    ensures ReplaceFirst(pre + p + post, p, v) == pre + v + post
  {
    var t := pre + p + post;
    FirstAfter(pre, p, post);
    ContainsAt(t, p, |pre|);
    var r := ReplaceFirst(t, p, v);
    assert r[..|pre|] == pre;
    assert r[|pre|..|pre| + |v|] == v;
    assert r[|pre| + |v|..] == post;
    assert r == r[..|pre|] + r[|pre|..|pre| + |v|] + r[|pre| + |v|..];
  }

  /** Occurrences of braced placeholders never overlap, unless they are
      one and the same occurrence. */
  lemma BracedDisjoint(t: string, p: string, q: string, x: nat, y: nat)
    requires Braced(p) && Braced(q) && OccursAt(t, p, x) && OccursAt(t, q, y)
    requires p != q || x != y
    ensures x + |p| <= y || y + |q| <= x
  {
    if x < y < x + |p| {
      BracedEntered(t, p, q, x, y);
    } else if y < x < y + |q| {
      BracedEntered(t, q, p, y, x);
    } else if x == y {
      BracedAligned(t, p, q, x);
    }
  }

  /** A braced placeholder cannot start inside another occurrence. */
  lemma BracedEntered(t: string, p: string, q: string, x: nat, y: nat)
    requires Braced(p) && Braced(q) && OccursAt(t, p, x) && OccursAt(t, q, y)
    ensures !(x < y < x + |p|)
  {
    if x < y < x + |p| {
      OccursCharAt(t, p, x, y);
      OccursCharAt(t, q, y, y);
      if y == x + 1 {
        OccursCharAt(t, p, x, y + 1);
        OccursCharAt(t, q, y, y + 1);
      }
    }
  }

  /** Two braced placeholders starting at the same place are equal. */
  lemma BracedAligned(t: string, p: string, q: string, x: nat)
    requires Braced(p) && Braced(q) && OccursAt(t, p, x) && OccursAt(t, q, x)
    ensures p == q
  {
    if |p| < |q| {
      OccursCharAt(t, p, x, x + |p| - 2);
      OccursCharAt(t, q, x, x + |p| - 2);
    } else if |q| < |p| {
      OccursCharAt(t, q, x, x + |q| - 2);
      OccursCharAt(t, p, x, x + |q| - 2);
    } else {
      assert p == t[x..x + |p|] == q;
    }
  }

  /** A braced placeholder found in a text holding a different braced
      placeholder lies wholly before it or wholly after it. */
  lemma BracedSplit(a: string, q: string, b: string, p: string)
    requires Braced(p) && Braced(q) && p != q
    ensures Contains(a + q + b, p) ==> Contains(a, p) || Contains(b, p)
  {
    var t := a + q + b;
    if Contains(t, p) {
      var x := IndexOf(t, p);
      assert t[|a|..|a| + |q|] == q;
      BracedDisjoint(t, p, q, x, |a|);
      if x + |p| <= |a| {
        assert t == a + (q + b);
        OccursInLeft(a, q + b, p, x);
        ContainsAt(a, p, x);
      } else {
        OccursInRight(a + q, b, p, x);
        ContainsAt(b, p, x - |a + q|);
      }
    }
  }

  /** A braced placeholder does not occur in a different one. */
  lemma BracedApart(p: string, q: string)
    requires Braced(p) && Braced(q) && p != q
    ensures !Contains(q, p)
  {
    assert "" + q + "" == q;
    BracedSplit("", q, "", p);
  }

  /** A piece of a template: literal text, or the slot of the placeholder
      of step `index`. */
  datatype Seg = Lit(text: string) | Slot(index: nat)

  /** Every slot names a step. */
  predicate SlotsIn(segs: seq<Seg>, n: nat) {
    forall j :: 0 <= j < |segs| ==> segs[j].Slot? ==> segs[j].index < n
  }

  /** The text of the segments once the first `k` steps have run: the
      slots of those steps hold their values, the others still hold their
      placeholders. */
  function Render(segs: seq<Seg>, steps: seq<Step>, k: nat): string
    decreases |segs|
  {
    if |segs| == 0 then "" else SegText(segs[0], steps, k) + Render(segs[1..], steps, k)
  }

  /** A slot naming no step reads as nothing; `SlotsIn` rules it out
      wherever a template is filled. */
  function SegText(seg: Seg, steps: seq<Step>, k: nat): string {
    match seg
    case Lit(s) => s
    case Slot(i) => if |steps| <= i then "" else if i < k then steps[i].value else steps[i].placeholder
  }

  lemma {:induction false} RenderAppend(a: seq<Seg>, b: seq<Seg>, steps: seq<Step>, k: nat)
    ensures Render(a + b, steps, k) == Render(a, steps, k) + Render(b, steps, k)
    decreases |a|
  {
    if |a| == 0 {
      assert a + b == b;
    } else {
      RenderAppend(a[1..], b, steps, k);
      RenderAppendStep(a, b, steps, k);
    }
  }

  lemma RenderAppendStep(a: seq<Seg>, b: seq<Seg>, steps: seq<Step>, k: nat)
    requires |a| > 0
    requires Render(a[1..] + b, steps, k) == Render(a[1..], steps, k) + Render(b, steps, k)
    ensures Render(a + b, steps, k) == Render(a, steps, k) + Render(b, steps, k)
  {
    var ab := a + b;
    assert ab[0] == a[0] && ab[1..] == a[1..] + b by {
      assert ab[1..] == a[1..] + b;
    }
    Regroup(SegText(a[0], steps, k), Render(a[1..], steps, k), Render(b, steps, k));
  }

  /** Segments without the slot of step `k` read the same before and after
      that step. */
  lemma {:induction false} RenderPast(segs: seq<Seg>, steps: seq<Step>, k: nat)
    requires forall j :: 0 <= j < |segs| ==> segs[j] != Slot(k)
    ensures Render(segs, steps, k) == Render(segs, steps, k + 1)
    decreases |segs|
  {
    if |segs| > 0 {
      RenderPast(segs[1..], steps, k);
    }
  }

  /** Segments whose slots all belong to steps before `k` read as the
      finished text. */
  lemma {:induction false} RenderDone(segs: seq<Seg>, steps: seq<Step>, k: nat)
    requires k <= |steps|
    requires forall j :: 0 <= j < |segs| ==> segs[j].Slot? ==> segs[j].index < k
    ensures Render(segs, steps, k) == Render(segs, steps, |steps|)
    decreases |segs|
  {
    if |segs| > 0 {
      RenderDone(segs[1..], steps, k);
    }
  }

  /** The slot of step `k` appears exactly once. */
  predicate SlotOnce(segs: seq<Seg>, k: nat) {
    exists j :: 0 <= j < |segs| && segs[j] == Slot(k) &&
      forall j' :: 0 <= j' < |segs| && j' != j ==> segs[j'] != Slot(k)
  }

  /** What the fill theorem assumes of a laid-out template: placeholders of
      the form `{{NAME}}`, pairwise different, each slot exactly once, and
      values inserted literally. */
  predicate WellLaid(segs: seq<Seg>, steps: seq<Step>) {
    && SlotsIn(segs, |steps|) && Insertable(steps) && Apart(steps)
    && (forall i :: 0 <= i < |steps| ==> SlotOnce(segs, i))
  }

  /** The finished text holds no placeholder. */
  predicate FilledClean(segs: seq<Seg>, steps: seq<Step>)
    requires SlotsIn(segs, |steps|)
  {
    forall i :: 0 <= i < |steps| ==> !Contains(Render(segs, steps, |steps|), steps[i].placeholder)
  }

  /** A run of segments cut out of the finished text holds no placeholder
      the finished text lacks. */
  lemma CutOfFilled(segs: seq<Seg>, steps: seq<Step>, lo: nat, hi: nat, p: string)
    requires SlotsIn(segs, |steps|) && lo <= hi <= |segs|
    requires !Contains(Render(segs, steps, |steps|), p)
    ensures SlotsIn(segs[lo..hi], |steps|)
    ensures !Contains(Render(segs[lo..hi], steps, |steps|), p)
  {
    var n := |steps|;
    RenderCut(segs, steps, n, lo, hi);
    LacksInMiddle(Render(segs[..lo], steps, n), Render(segs[lo..hi], steps, n), Render(segs[hi..], steps, n), p);
  }

  /** The text of the segments is the text of three consecutive cuts. */
  lemma RenderCut(segs: seq<Seg>, steps: seq<Step>, k: nat, lo: nat, hi: nat)
    requires lo <= hi <= |segs|
    ensures Render(segs, steps, k) == Render(segs[..lo], steps, k) + Render(segs[lo..hi], steps, k) + Render(segs[hi..], steps, k)
  {
    assert segs == segs[..lo] + segs[lo..hi] + segs[hi..];
    RenderAppend(segs[..lo], segs[lo..hi], steps, k);
    RenderAppend(segs[..lo] + segs[lo..hi], segs[hi..], steps, k);
  }

  /** The text of a stretch split around one of its segments. */
  lemma RenderAround(segs: seq<Seg>, steps: seq<Step>, k: nat, lo: nat, j: nat, hi: nat)
    requires lo <= j < hi <= |segs|
    ensures Render(segs[lo..hi], steps, k)
            == Render(segs[lo..j], steps, k) + SegText(segs[j], steps, k) + Render(segs[j + 1..hi], steps, k)
  {
    var a, b := segs[lo..j], segs[j + 1..hi];
    assert segs[lo..hi] == a + [segs[j]] + b;
    RenderAppend(a, [segs[j]], steps, k);
    RenderAppend(a + [segs[j]], b, steps, k);
    assert Render([segs[j]], steps, k) == SegText(segs[j], steps, k) + Render([], steps, k);
  }

  /** The first segment at or after `lo` that is the slot of a step not
      yet run, or `hi`. */
  lemma {:induction false} NextOpen(segs: seq<Seg>, k: nat, lo: nat, hi: nat) returns (j: nat)
    requires lo <= hi <= |segs|
    ensures lo <= j <= hi
    ensures forall t :: lo <= t < j ==> !(segs[t].Slot? && segs[t].index >= k)
    ensures j < hi ==> segs[j].Slot? && segs[j].index >= k
    decreases hi - lo
  {
    if lo == hi || (segs[lo].Slot? && segs[lo].index >= k) {
      j := lo;
    } else {
      j := NextOpen(segs, k, lo + 1, hi);
    }
  }

  /** What step `k` needs of a well-laid chain: every placeholder braced,
      its own different from every other, and absent from the finished
      text. */
  predicate StepReady(segs: seq<Seg>, steps: seq<Step>, k: nat) {
    && SlotsIn(segs, |steps|) && k < |steps|
    && (forall i :: 0 <= i < |steps| ==> Braced(steps[i].placeholder))
    && (forall i :: 0 <= i < |steps| && i != k ==> steps[i].placeholder != steps[k].placeholder)
    && !Contains(Render(segs, steps, |steps|), steps[k].placeholder)
  }

  lemma Ready(segs: seq<Seg>, steps: seq<Step>, k: nat)
    requires WellLaid(segs, steps) && FilledClean(segs, steps) && k < |steps|
    ensures StepReady(segs, steps, k) && SlotOnce(segs, k) && Plain(steps[k].value)
  {
  }

  /** Before step `k` runs, its placeholder does not occur in a stretch of
      the template lacking its slot: placeholders still waiting cannot
      overlap it, and the stretches between them are cut out of the
      finished text. */
  lemma {:induction false} NotBefore(segs: seq<Seg>, steps: seq<Step>, k: nat, lo: nat, hi: nat)
    requires StepReady(segs, steps, k) && lo <= hi <= |segs|
    requires forall t :: lo <= t < hi ==> segs[t] != Slot(k)
    ensures !Contains(Render(segs[lo..hi], steps, k), steps[k].placeholder)
    decreases hi - lo
  {
    var p := steps[k].placeholder;
    var j := NextOpen(segs, k, lo, hi);
    ClosedRun(segs, steps, k, lo, j);
    if j < hi {
      var m := segs[j].index;
      var q := steps[m].placeholder;
      RenderAround(segs, steps, k, lo, j, hi);
      assert SegText(segs[j], steps, k) == q;
      NotBefore(segs, steps, k, j + 1, hi);
      if Contains(Render(segs[lo..hi], steps, k), p) {
        BracedSplit(Render(segs[lo..j], steps, k), q, Render(segs[j + 1..hi], steps, k), p);
      }
    }
  }

  /** A stretch holding no slot of a step still to run lacks the
      placeholder of step `k`. */
  lemma ClosedRun(segs: seq<Seg>, steps: seq<Step>, k: nat, lo: nat, j: nat)
    requires StepReady(segs, steps, k) && lo <= j <= |segs|
    requires forall t :: lo <= t < j ==> !(segs[t].Slot? && segs[t].index >= k)
    ensures SlotsIn(segs[lo..j], |steps|)
    ensures !Contains(Render(segs[lo..j], steps, k), steps[k].placeholder)
  {
    RenderDone(segs[lo..j], steps, k);
    CutOfFilled(segs, steps, lo, j, steps[k].placeholder);
  }

  /** One step of the chain fills exactly the slot of its placeholder. */
  lemma FillOne(segs: seq<Seg>, steps: seq<Step>, k: nat)
    requires StepReady(segs, steps, k) && SlotOnce(segs, k) && Plain(steps[k].value)
    ensures ReplaceFirst(Render(segs, steps, k), steps[k].placeholder, steps[k].value)
            == Render(segs, steps, k + 1)
  {
    var j :| 0 <= j < |segs| && segs[j] == Slot(k) &&
             forall j' :: 0 <= j' < |segs| && j' != j ==> segs[j'] != Slot(k);
    NotBefore(segs, steps, k, 0, j);
    FillSlot(segs, steps, k, j);
  }

  lemma FillSlot(segs: seq<Seg>, steps: seq<Step>, k: nat, j: nat)
    requires SlotsIn(segs, |steps|) && k < |steps| && j < |segs| && segs[j] == Slot(k)
    requires forall j' :: 0 <= j' < |segs| && j' != j ==> segs[j'] != Slot(k)
    requires Braced(steps[k].placeholder) && Plain(steps[k].value)
    requires !Contains(Render(segs[0..j], steps, k), steps[k].placeholder)
    ensures ReplaceFirst(Render(segs, steps, k), steps[k].placeholder, steps[k].value)
            == Render(segs, steps, k + 1)
  {
    var p, v := steps[k].placeholder, steps[k].value;
    var a, b := segs[0..j], segs[j + 1..|segs|];
    AroundSlot(segs, steps, k, j);
    BracedUnbordered(p);
    ReplacePlaced(Render(a, steps, k), p, Render(b, steps, k), v);
  }

  /** The text around the only slot of step `k`, before and after that
      step. */
  lemma AroundSlot(segs: seq<Seg>, steps: seq<Step>, k: nat, j: nat)
    requires k < |steps| && j < |segs| && segs[j] == Slot(k)
    requires forall j' :: 0 <= j' < |segs| && j' != j ==> segs[j'] != Slot(k)
    ensures Render(segs, steps, k)
            == Render(segs[0..j], steps, k) + steps[k].placeholder + Render(segs[j + 1..|segs|], steps, k)
    ensures Render(segs, steps, k + 1)
            == Render(segs[0..j], steps, k) + steps[k].value + Render(segs[j + 1..|segs|], steps, k)
  {
    assert segs[0..|segs|] == segs;
    RenderAround(segs, steps, k, 0, j, |segs|);
    RenderAround(segs, steps, k + 1, 0, j, |segs|);
    RenderPast(segs[0..j], steps, k);
    RenderPast(segs[j + 1..|segs|], steps, k);
  }

  lemma {:induction false} FillFrom(segs: seq<Seg>, steps: seq<Step>, k: nat)
    requires WellLaid(segs, steps) && FilledClean(segs, steps) && k <= |steps|
    ensures Insertable(steps[k..])
    ensures Fill(Render(segs, steps, k), steps[k..]) == Render(segs, steps, |steps|)
    decreases |steps| - k
  {
    if k < |steps| {
      Ready(segs, steps, k);
      FillOne(segs, steps, k);
      assert steps[k..][0] == steps[k] && steps[k..][1..] == steps[k + 1..];
      FillFrom(segs, steps, k + 1);
    }
  }

  /** The fill theorem: a template laid out with each placeholder once, in
      any order, whose finished text holds no placeholder, comes out of the
      chain as that finished text, each slot holding its step's value. */
  lemma FillLaidOut(segs: seq<Seg>, steps: seq<Step>)
    requires WellLaid(segs, steps) && FilledClean(segs, steps)
    ensures Fill(Render(segs, steps, 0), steps) == Render(segs, steps, |steps|)
  {
    FillFrom(segs, steps, 0);
    assert steps[0..] == steps;
  }

  /** Every value of a laid-out chain occurs in the finished text. */
  lemma {:induction false} ValuesPlaced(segs: seq<Seg>, steps: seq<Step>, i: nat)
    requires SlotsIn(segs, |steps|) && i < |steps|
    requires exists j :: 0 <= j < |segs| && segs[j] == Slot(i)
    ensures Contains(Render(segs, steps, |steps|), steps[i].value)
    decreases |segs|
  {
    var n := |steps|;
    var v := steps[i].value;
    var head, rest := SegText(segs[0], steps, n), Render(segs[1..], steps, n);
    assert Render(segs, steps, n) == head + rest + "";
    if segs[0] == Slot(i) {
      assert v[0..|v|] == v;
      ContainsAt(v, v, 0);
      ContainsInside("", head, rest, v);
      assert "" + head + rest == head + rest + "";
    } else {
      var j :| 0 <= j < |segs| && segs[j] == Slot(i);
      assert segs[1..][j - 1] == Slot(i);
      ValuesPlaced(segs[1..], steps, i);
      ContainsInside(head, rest, "", v);
    }
  }

  /** A laid-out chain whose finished text is placeholder-free turns its
      template into that text, and every value appears in it. */
  lemma LaidOutFills(segs: seq<Seg>, steps: seq<Step>)
    requires WellLaid(segs, steps) && FilledClean(segs, steps)
    ensures Fill(Render(segs, steps, 0), steps) == Render(segs, steps, |steps|)
    ensures forall i :: 0 <= i < |steps| ==> Contains(Render(segs, steps, |steps|), steps[i].value)
  {
    FillLaidOut(segs, steps);
    forall i | 0 <= i < |steps|
      ensures Contains(Render(segs, steps, |steps|), steps[i].value)
    {
      assert SlotOnce(segs, i);
      var j :| 0 <= j < |segs| && segs[j] == Slot(i) &&
        forall j' :: 0 <= j' < |segs| && j' != j ==> segs[j'] != Slot(i);
      ValuesPlaced(segs, steps, i);
    }
  }

  /** A text that is exactly the placeholder of step `k` goes through the
      steps before it untouched and becomes that step's value. */
  lemma FillWhole(steps: seq<Step>, m: nat, k: nat)
    requires Insertable(steps) && Apart(steps) && m <= k < |steps|
    ensures Insertable(steps[m..]) && Insertable(steps[k + 1..])
    ensures Fill(steps[k].placeholder, steps[m..]) == Fill(steps[k].value, steps[k + 1..])
  {
    forall i | m <= i < k
      ensures !Contains("", steps[i].placeholder)
    {
      assert |steps[i].placeholder| >= 4;
    }
    FillLeading(steps, m, k, "");
    assert steps[k].placeholder + "" == steps[k].placeholder;
    assert steps[k].value + "" == steps[k].value;
  }

  /** When the value of step `a` is the placeholder of a later step `b`,
      a text that is exactly the placeholder of `a` ends up as the value of
      `b`, filled by the steps after `b`. */
  lemma Relay(steps: seq<Step>, a: nat, b: nat)
    requires Insertable(steps) && Apart(steps) && a < b < |steps|
    requires steps[a].value == steps[b].placeholder
    ensures Insertable(steps[b + 1..])
    ensures Fill(steps[a].placeholder, steps) == Fill(steps[b].value, steps[b + 1..])
  {
    var pa, pb := steps[a].placeholder, steps[b].placeholder;
    assert steps[0..] == steps;
    FillWhole(steps, 0, a);
    assert Fill(pa, steps) == Fill(pb, steps[a + 1..]);
    FillWhole(steps, a + 1, b);
  }

  /** The last step runs on what the others leave and nothing runs after
      it, so its value lands verbatim where the placeholder was. */
  lemma FillLast(t: string, steps: seq<Step>)
    requires |steps| > 0
    ensures Insertable(steps) ==> Insertable(steps[..|steps| - 1])
    ensures Fill(t, steps) == ReplaceFirst(Fill(t, steps[..|steps| - 1]), steps[|steps| - 1].placeholder, steps[|steps| - 1].value)
  {
    var n := |steps| - 1;
    assert steps == steps[..n] + [steps[n]];
    FillAppend(t, steps[..n], [steps[n]]);
    assert [steps[n]][1..] == [];
  }

  // ---------------------------------------------------------------------
  // Placeholders laid out in chain order
  // ---------------------------------------------------------------------

  /** The slots of steps `lo` up to, not including, `hi`, in order. */
  function SlotRun(lo: nat, hi: nat): (r: seq<Seg>)
    ensures |r| == if lo <= hi then hi - lo else 0
    ensures forall j :: 0 <= j < |r| ==> r[j] == Slot(lo + j)
    decreases hi - lo
  {
    if hi <= lo then [] else [Slot(lo)] + SlotRun(lo + 1, hi)
  }

  /** A template holding every placeholder of an `n`-step chain once, in
      chain order, followed by literal text. */
  function InOrder(n: nat, tail: string): seq<Seg> {
    SlotRun(0, n) + [Lit(tail)]
  }

  /** The in-order template is laid out as the fill theorem asks: every
      slot names a step and each step has exactly one slot. */
  lemma InOrderLaidOut(n: nat, tail: string)
    ensures SlotsIn(InOrder(n, tail), n)
    ensures forall i :: 0 <= i < n ==> SlotOnce(InOrder(n, tail), i)
  {
    var segs := InOrder(n, tail);
    forall i | 0 <= i < n
      ensures SlotOnce(segs, i)
    {
      assert segs[i] == Slot(i);
    }
  }

  /** Segments whose slots are all filled, by values lacking `c`, and
      whose literal text lacks `c` render without `c`. */
  lemma {:induction false} RenderLacksChar(segs: seq<Seg>, steps: seq<Step>, k: nat, c: char)
    requires forall j :: 0 <= j < |segs| ==>
               match segs[j]
               case Lit(s) => c !in s
               case Slot(i) => i < k && i < |steps| && c !in steps[i].value
    ensures c !in Render(segs, steps, k)
    decreases |segs|
  {
    if |segs| > 0 {
      assert forall j :: 0 <= j < |segs| - 1 ==> segs[1..][j] == segs[j + 1];
      RenderLacksChar(segs[1..], steps, k, c);
    }
  }

  /** Step `k` of a chain over the in-order template replaces its own slot
      when the values inserted before it hold no `}`. */
  lemma InOrderStep(steps: seq<Step>, tail: string, k: nat)
    requires Insertable(steps) && Apart(steps) && k < |steps|
    requires forall i :: 0 <= i < k ==> '}' !in steps[i].value
    ensures ReplaceFirst(Render(InOrder(|steps|, tail), steps, k), steps[k].placeholder, steps[k].value)
            == Render(InOrder(|steps|, tail), steps, k + 1)
  {
    var segs := InOrder(|steps|, tail);
    var p := steps[k].placeholder;
    InOrderLaidOut(|steps|, tail);
    assert segs[k] == Slot(k);
    RenderLacksChar(segs[0..k], steps, k, '}');
    NotContainsByChar(Render(segs[0..k], steps, k), p, |p| - 1);
    FillSlot(segs, steps, k, k);
  }

  lemma {:induction false} InOrderFrom(steps: seq<Step>, tail: string, k: nat)
    requires Insertable(steps) && Apart(steps) && k <= |steps|
    requires forall i :: 0 <= i < |steps| - 1 ==> '}' !in steps[i].value
    ensures Insertable(steps[k..])
    ensures Fill(Render(InOrder(|steps|, tail), steps, k), steps[k..]) == Render(InOrder(|steps|, tail), steps, |steps|)
    decreases |steps| - k
  {
    if k < |steps| {
      InOrderStep(steps, tail, k);
      assert steps[k..][0] == steps[k] && steps[k..][1..] == steps[k + 1..];
      InOrderFrom(steps, tail, k + 1);
    }
  }

  /** A chain over the in-order template gives the text with every slot
      holding its value, when no value but the last holds `}`: each step
      replaces its own slot, whatever the values and the tail leave behind.
      Unlike the fill theorem, nothing is assumed of the finished text. */
  lemma InOrderFills(steps: seq<Step>, tail: string)
    requires Insertable(steps) && Apart(steps)
    requires forall i :: 0 <= i < |steps| - 1 ==> '}' !in steps[i].value
    ensures Fill(Render(InOrder(|steps|, tail), steps, 0), steps) == Render(InOrder(|steps|, tail), steps, |steps|)
  {
    InOrderFrom(steps, tail, 0);
    assert steps[0..] == steps;
  }

  /** The finished in-order text ends with the last value followed by the
      tail. */
  lemma InOrderLast(steps: seq<Step>, tail: string)
    requires |steps| > 0
    ensures var n := |steps|;
            Render(InOrder(n, tail), steps, n) == Render(SlotRun(0, n - 1), steps, n) + steps[n - 1].value + tail
  {
    var n := |steps|;
    var front := SlotRun(0, n - 1);
    var back := [Slot(n - 1), Lit(tail)];
    assert InOrder(n, tail) == front + back by {
      assert SlotRun(0, n) == front + [Slot(n - 1)];
    }
    assert Render(back, steps, n) == steps[n - 1].value + tail by {
      RenderOne(Lit(tail), steps, n);
      assert back[1..] == [Lit(tail)];
    }
    RenderAppend(front, back, steps, n);
    Regroup(Render(front, steps, n), steps[n - 1].value, tail);
  }

  lemma RenderOne(seg: Seg, steps: seq<Step>, k: nat)
    ensures Render([seg], steps, k) == SegText(seg, steps, k)
  {
    assert [seg][1..] == [];
  }
}
