/** The JavaScript string operations the pipeline relies on (`indexOf`,
    `includes`, `startsWith`, `split`/`join`, `replace` with a string pattern,
    `trim`), stated over `seq<char>` and restricted to ASCII whitespace. */
module Strings {

  /** Regrouping a concatenation; calling it spares the solver from
      rediscovering the regrouping element by element. */
  lemma Regroup<T>(a: seq<T>, b: seq<T>, c: seq<T>)
    ensures a + (b + c) == (a + b) + c
  {
  }

  /** `p` occurs in `s` starting at index `i`. */
  predicate OccursAt(s: string, p: string, i: int) {
    0 <= i && i + |p| <= |s| && s[i..i + |p|] == p
  }

  /** `s.startsWith(p)`. */
  predicate StartsWith(s: string, p: string) {
    |p| <= |s| && s[..|p|] == p
  }

  /** `s.endsWith(p)`. */
  predicate EndsWith(s: string, p: string) {
    |p| <= |s| && s[|s| - |p|..] == p
  }

  /** `s.indexOf(p, from)` for `from <= |s|`: the first index at or after
      `from` where `p` occurs, or -1 when there is none. */
  function IndexOfFrom(s: string, p: string, from: nat): (r: int)
    ensures r == -1 || (from <= r && OccursAt(s, p, r))
    ensures r == -1 ==> forall i :: from <= i ==> !OccursAt(s, p, i)
    ensures r >= 0 ==> forall i :: from <= i < r ==> !OccursAt(s, p, i)
    decreases |s| - from
  {
    if from + |p| > |s| then -1
    else if s[from..from + |p|] == p then from
    else IndexOfFrom(s, p, from + 1)
  }

  /** `s.indexOf(p)`: the first occurrence, or -1. */
  function IndexOf(s: string, p: string): (r: int)
    ensures r == -1 || OccursAt(s, p, r)
    ensures r == -1 <==> forall i :: !OccursAt(s, p, i)
    ensures r >= 0 ==> forall i :: i < r ==> !OccursAt(s, p, i)
  {
    IndexOfFrom(s, p, 0)
  }

  /** `s.includes(p)`. */
  predicate Contains(s: string, p: string) {
    IndexOf(s, p) >= 0
  }

  lemma ContainsAt(s: string, p: string, i: int)
    requires OccursAt(s, p, i)
    ensures Contains(s, p)
  {
  }

  lemma NotContainsAt(s: string, p: string, i: int)
    requires !Contains(s, p)
    ensures !OccursAt(s, p, i)
  {
  }

  /** The character of `s` at index `q` inside an occurrence of `p`. */
  lemma OccursCharAt(s: string, p: string, i: int, q: int)
    requires OccursAt(s, p, i) && i <= q < i + |p|
    ensures s[q] == p[q - i]
  {
    assert s[i..i + |p|][q - i] == s[q];
  }

  lemma OccursInLeft(a: string, b: string, p: string, i: int)
    requires OccursAt(a + b, p, i) && i + |p| <= |a|
    ensures OccursAt(a, p, i)
  {
    assert (a + b)[i..i + |p|] == a[i..i + |p|];
  }

  lemma OccursInRight(a: string, b: string, p: string, i: int)
    requires OccursAt(a + b, p, i) && i >= |a|
    ensures OccursAt(b, p, i - |a|)
  {
    assert (a + b)[i..i + |p|] == b[i - |a|..i - |a| + |p|];
  }

  /** A slice of `a + b` lying within `b`. */
  lemma SliceOfRight(a: string, b: string, lo: int, hi: int)
    requires |a| <= lo <= hi <= |a| + |b|
    ensures (a + b)[lo..hi] == b[lo - |a|..hi - |a|]
  {
  }

  lemma OccursExtendLeft(a: string, b: string, p: string, i: int)
    requires OccursAt(b, p, i)
    ensures OccursAt(a + b, p, i + |a|)
  {
    assert (a + b)[i + |a|..i + |a| + |p|] == b[i..i + |p|];
  }

  lemma OccursExtendRight(a: string, b: string, p: string, i: int)
    requires OccursAt(a, p, i)
    ensures OccursAt(a + b, p, i)
  {
    assert (a + b)[i..i + |p|] == a[i..i + |p|];
  }

  /** `s.split(sep)` for a non-empty separator: the pieces between the
      leftmost non-overlapping occurrences of `sep`. */
  function SplitOn(s: string, sep: string): (parts: seq<string>)
    requires |sep| > 0
    ensures |parts| >= 1
    decreases |s|
  {
    var k := IndexOf(s, sep);
    if k < 0 then [s] else [s[..k]] + SplitOn(s[k + |sep|..], sep)
  }

  /** `parts.join(sep)`. */
  function JoinWith(parts: seq<string>, sep: string): string {
    if |parts| == 0 then ""
    else if |parts| == 1 then parts[0]
    else parts[0] + sep + JoinWith(parts[1..], sep)
  }

  lemma JoinCons(a: string, ps: seq<string>, sep: string)
    requires |ps| >= 1
    ensures JoinWith([a] + ps, sep) == a + sep + JoinWith(ps, sep)
  {
    assert ([a] + ps)[1..] == ps;
  }

  /** Joining pieces that lack a character with a separator that lacks it
      gives a text that lacks it. */
  lemma {:induction false} JoinLacks(parts: seq<string>, sep: string, ch: char)
    requires ch !in sep && forall i :: 0 <= i < |parts| ==> ch !in parts[i]
    ensures ch !in JoinWith(parts, sep)
    decreases |parts|
  {
    if |parts| > 1 {
      JoinLacks(parts[1..], sep, ch);
    }
  }

  /** Splitting on a separator and joining with the same one gives the
      original string back. */
  lemma {:induction false} JoinSplit(s: string, sep: string)
    requires |sep| > 0
    ensures JoinWith(SplitOn(s, sep), sep) == s
    decreases |s|
  {
    var k := IndexOf(s, sep);
    if k >= 0 {
      var rest := s[k + |sep|..];
      var parts := SplitOn(rest, sep);
      JoinSplit(rest, sep);
      assert SplitOn(s, sep) == [s[..k]] + parts;
      JoinCons(s[..k], parts, sep);
      assert JoinWith(SplitOn(s, sep), sep) == s[..k] + sep + rest;
      assert s[k..k + |sep|] == sep;
      assert s == s[..k] + s[k..k + |sep|] + rest;
    }
  }

  /** No piece produced by `split` contains the separator. */
  lemma {:induction false} SplitPiecesFree(s: string, sep: string)
    requires |sep| > 0
    ensures forall j :: 0 <= j < |SplitOn(s, sep)| ==> !Contains(SplitOn(s, sep)[j], sep)
    decreases |s|
  {
    var k := IndexOf(s, sep);
    var parts := SplitOn(s, sep);
    if k < 0 {
      assert parts == [s];
    } else {
      var rest := s[k + |sep|..];
      SplitPiecesFree(rest, sep);
      assert parts == [s[..k]] + SplitOn(rest, sep);
      if Contains(s[..k], sep) {
        var i := IndexOf(s[..k], sep);
        assert s[..k][i..i + |sep|] == s[i..i + |sep|];
        assert OccursAt(s, sep, i);
        assert false;
      }
    }
  }

  /** `s.split(pat).join(rep)`: every leftmost non-overlapping occurrence of
      `pat` replaced by `rep`. */
  function ReplaceAll(s: string, pat: string, rep: string): (r: string)
    requires |pat| > 0
    ensures !Contains(s, pat) ==> r == s
  {
    JoinWith(SplitOn(s, pat), rep)
  }

  /** `ReplaceAll` cut at the first occurrence of the pattern. */
  lemma ReplaceAllFirst(s: string, pat: string, rep: string)
    requires |pat| > 0 && Contains(s, pat)
    ensures var k := IndexOf(s, pat);
            ReplaceAll(s, pat, rep) == s[..k] + rep + ReplaceAll(s[k + |pat|..], pat, rep)
  {
    var k := IndexOf(s, pat);
    var rest := s[k + |pat|..];
    assert SplitOn(s, pat) == [s[..k]] + SplitOn(rest, pat);
  }

  /** Deleting a pattern never lengthens a text, and shortens it by at
      least the pattern when the text holds it. */
  lemma {:induction false} DeletionShrinks(s: string, m: string)
    requires |m| > 0
    ensures |ReplaceAll(s, m, "")| <= |s|
    ensures Contains(s, m) ==> |ReplaceAll(s, m, "")| <= |s| - |m|
    decreases |s|
  {
    if Contains(s, m) {
      var k := IndexOf(s, m);
      var rest := s[k + |m|..];
      ReplaceAllFirst(s, m, "");
      DeletionShrinks(rest, m);
    }
  }

  /** The characters that, after a `$` in a replacement text, make
      `replace` insert something other than the two characters. */
  predicate Special(c: char) {
    c == '$' || c == '&' || c == '`' || c == '\''
  }

  /** A replacement text `replace` inserts as it stands: no `$` in it is
      followed by `$`, `&`, a backquote or a quote. Any other `$` stays
      literal, `$1` and `$<` included, since a string pattern has no
      capture groups. */
  predicate Plain(rep: string) {
    forall i :: 0 <= i < |rep| - 1 && rep[i] == '$' ==> !Special(rep[i + 1])
  }

  /** The GetSubstitution operation of ECMA-262 for a string pattern, which
      has no capture groups: `$$` becomes one `$`, `$&` the matched text,
      `` $` `` the text before the match and `$'` the text after it; every
      other character is copied. A plain text comes out unchanged. */
  function Expand(rep: string, before: string, matched: string, after: string): (r: string)
    ensures Plain(rep) ==> r == rep
    decreases |rep|
  {
    if |rep| == 0 then ""
    else if |rep| >= 2 && rep[0] == '$' && Special(rep[1]) then
      var piece := if rep[1] == '$' then "$" else if rep[1] == '&' then matched
                   else if rep[1] == '`' then before else after;
      piece + Expand(rep[2..], before, matched, after)
    else
      assert Plain(rep) ==> Plain(rep[1..]) by {
        assert forall i :: 0 <= i < |rep| - 1 ==> rep[1..][i] == rep[i + 1];
      }
      [rep[0]] + Expand(rep[1..], before, matched, after)
  }

  /** Joining two plain texts stays plain unless the first ends in `$`
      and the second starts with a character that `$` would make special. */
  lemma PlainConcat(a: string, b: string)
    requires Plain(a) && Plain(b)
    requires |a| == 0 || |b| == 0 || a[|a| - 1] != '$' || !Special(b[0])
    ensures Plain(a + b)
  {
    forall i | 0 <= i < |a + b| - 1 && (a + b)[i] == '$'
      ensures !Special((a + b)[i + 1])
    {
      if i >= |a| {
        assert (a + b)[i] == b[i - |a|] && (a + b)[i + 1] == b[i - |a| + 1];
      }
    }
  }

  /** `s.replace(pat, rep)` with a string pattern: only the first occurrence
      is replaced, by `rep` with its `$` sequences expanded against the
      match; a plain `rep` is inserted as it stands. */
  function ReplaceFirst(s: string, pat: string, rep: string): (r: string)
    ensures !Contains(s, pat) ==> r == s
    ensures Contains(s, pat) ==>
              var k := IndexOf(s, pat);
              var x := Expand(rep, s[..k], pat, s[k + |pat|..]);
              && OccursAt(r, x, k)
              && r[..k] == s[..k]
              && r[k + |x|..] == s[k + |pat|..]
    ensures Contains(s, pat) && Plain(rep) ==>
              var k := IndexOf(s, pat);
              && OccursAt(r, rep, k)
              && r[..k] == s[..k]
              && r[k + |rep|..] == s[k + |pat|..]
  {
    var k := IndexOf(s, pat);
    if k < 0 then s
    else
      var x := Expand(rep, s[..k], pat, s[k + |pat|..]);
      var r := s[..k] + x + s[k + |pat|..];
      assert r[k..k + |x|] == x;
      r
  }

  /** The quirk of passing source text as a replacement: a doubled `$`
      loses one `$`, as the template literal `` `$${price}` `` comes out as
      `` `${price}` ``. */
  lemma DoubledDollarCollapses(pre: string, post: string, before: string, matched: string, after: string)
    requires '$' !in pre && '$' !in post
    ensures Expand(pre + "$$" + post, before, matched, after) == pre + "$" + post
  {
    ExpandKeepsPrefix(pre, "$$" + post, before, matched, after);
    assert ("$$" + post)[2..] == post;
    assert Plain(post);
    assert pre + "$$" + post == pre + ("$$" + post);
  }

  /** A prefix without `$` is copied as it stands. */
  lemma {:induction false} ExpandKeepsPrefix(pre: string, rest: string, before: string, matched: string, after: string)
    requires '$' !in pre
    ensures Expand(pre + rest, before, matched, after) == pre + Expand(rest, before, matched, after)
    decreases |pre|
  {
    if |pre| > 0 {
      var c, tail := pre[0], pre[1..];
      assert c in pre;
      assert pre + rest == [c] + (tail + rest);
      ExpandCopies(c, tail + rest, before, matched, after);
      ExpandKeepsPrefix(tail, rest, before, matched, after);
      assert pre == [c] + tail;
    } else {
      assert pre + rest == rest;
    }
  }

  lemma ExpandCopies(c: char, rest: string, before: string, matched: string, after: string)
    requires c != '$'
    ensures Expand([c] + rest, before, matched, after) == [c] + Expand(rest, before, matched, after)
  {
    assert ([c] + rest)[0] == c && ([c] + rest)[1..] == rest;
  }

  /** The characters JavaScript's `trim` and `\s` treat as white space,
      restricted to ASCII. */
  predicate IsSpace(c: char) {
    c == ' ' || c == '\t' || c == '\n' || c == '\r' || c == '\U{000B}' || c == '\U{000C}'
  }

  predicate AllSpace(s: string) {
    forall k :: 0 <= k < |s| ==> IsSpace(s[k])
  }

  function LeadingSpaceCount(s: string): (n: nat)
    ensures n <= |s|
    ensures AllSpace(s[..n])
    ensures n < |s| ==> !IsSpace(s[n])
  {
    if |s| == 0 || !IsSpace(s[0]) then 0 else 1 + LeadingSpaceCount(s[1..])
  }

  function TrailingSpaceCount(s: string): (n: nat)
    ensures n <= |s|
    ensures forall k :: |s| - n <= k < |s| ==> IsSpace(s[k])
    ensures n < |s| ==> !IsSpace(s[|s| - n - 1])
  {
    if |s| == 0 || !IsSpace(s[|s| - 1]) then 0
    else 1 + TrailingSpaceCount(s[..|s| - 1])
  }

  /** Neither starts nor ends with white space. */
  predicate Trimmed(s: string) {
    |s| == 0 || (!IsSpace(s[0]) && !IsSpace(s[|s| - 1]))
  }

  /** `s.trim()`: the slice of `s` left after dropping leading and trailing
      white space; it neither starts nor ends with white space. */
  function Trim(s: string): (r: string)
    ensures Trimmed(r)
    ensures var i := LeadingSpaceCount(s);
            && i + |r| <= |s|
            && r == s[i..i + |r|]
            && AllSpace(s[..i])
            && AllSpace(s[i + |r|..])
  {
    var i := LeadingSpaceCount(s);
    var r := TrimEnd(s[i..]);
    assert s[i + |r|..] == s[i..][|r|..];
    r
  }

  /** `t` without its trailing white space. */
  function TrimEnd(t: string): (r: string)
    ensures |r| <= |t| && r == t[..|r|] && AllSpace(t[|r|..])
    ensures |r| == 0 || !IsSpace(r[|r| - 1])
  {
    t[..|t| - TrailingSpaceCount(t)]
  }

  /** Trimming is idempotent. */
  lemma TrimIdempotent(s: string)
    ensures Trim(Trim(s)) == Trim(s)
  {
    var r := Trim(s);
    assert LeadingSpaceCount(r) == 0;
    TrimUnchanged(r);
  }

  /** A string that neither starts nor ends with white space is its own trim. */
  lemma TrimUnchanged(s: string)
    requires Trimmed(s)
    ensures Trim(s) == s
  {
    var r := Trim(s);
    assert LeadingSpaceCount(s) == 0;
  }

  /** The trim of `s` is pinned down by where its non-space part starts and
      ends. */
  lemma TrimIs(s: string, i: nat, j: nat)
    requires i <= j <= |s|
    requires AllSpace(s[..i]) && AllSpace(s[j..])
    requires i == j || (!IsSpace(s[i]) && !IsSpace(s[j - 1]))
    ensures Trim(s) == s[i..j]
  {
    var r := Trim(s);
    var l := LeadingSpaceCount(s);
    if i == j {
      assert AllSpace(s) by {
        forall k | 0 <= k < |s|
          ensures IsSpace(s[k])
        {
          if k < i {
            assert s[..i][k] == s[k];
          } else {
            assert s[j..][k - j] == s[k];
          }
        }
      }
      assert |r| == 0;
    } else {
      assert l == i;
    }
  }

  lemma AllSpaceAppend(a: string, b: string)
    requires AllSpace(a) && AllSpace(b)
    ensures AllSpace(a + b)
  {
    assert forall k :: 0 <= k < |a + b| ==> (a + b)[k] == if k < |a| then a[k] else b[k - |a|];
  }

  lemma {:induction false} LeadingSpaceAppend(ws: string, s: string)
    requires AllSpace(ws)
    ensures LeadingSpaceCount(ws + s) == |ws| + LeadingSpaceCount(s)
    decreases |ws|
  {
    if |ws| == 0 {
      assert ws + s == s;
    } else {
      assert (ws + s)[0] == ws[0];
      assert (ws + s)[1..] == ws[1..] + s;
      LeadingSpaceAppend(ws[1..], s);
    }
  }

  /** The leading white space is pinned down by where it ends. */
  lemma {:induction false} LeadingSpaceIs(s: string, n: nat)
    requires n <= |s| && AllSpace(s[..n]) && (n < |s| ==> !IsSpace(s[n]))
    ensures LeadingSpaceCount(s) == n
    decreases n
  {
    if n > 0 {
      assert s[0] == s[..n][0];
      assert s[1..][..n - 1] == s[..n][1..];
      LeadingSpaceIs(s[1..], n - 1);
    }
  }

  /** What remains after the leading white space: the text a greedy `\s*`
      leaves to the rest of a regular expression. */
  function SkipSpace(s: string): (r: string)
    ensures |r| <= |s| && (|r| == 0 || !IsSpace(r[0]))
    ensures s == s[..|s| - |r|] + r && AllSpace(s[..|s| - |r|])
  {
    var n := LeadingSpaceCount(s);
    assert s == s[..n] + s[n..];
    s[n..]
  }

  /** White space in front of a string does not survive trimming. */
  lemma TrimSpacePrefix(ws: string, s: string)
    requires AllSpace(ws)
    ensures Trim(ws + s) == Trim(s)
  {
    LeadingSpaceAppend(ws, s);
    var t := ws + s;
    var i := LeadingSpaceCount(s);
    assert t[LeadingSpaceCount(t)..] == s[i..];
    TrimBody(t);
    TrimBody(s);
  }

  lemma TrimBody(s: string)
    ensures Trim(s) == TrimEnd(s[LeadingSpaceCount(s)..])
  {
  }

  /** White space after a string does not survive trimming. */
  lemma TrimSpaceSuffix(s: string, ws: string)
    requires AllSpace(ws)
    ensures Trim(s + ws) == Trim(s)
  {
    var r := Trim(s);
    var i := LeadingSpaceCount(s);
    var j := i + |r|;
    var t := s + ws;
    assert t[..i] == s[..i];
    assert t[j..] == s[j..] + ws;
    AllSpaceAppend(s[j..], ws);
    assert t[i..j] == s[i..j];
    if |r| > 0 {
      assert t[i] == r[0];
      assert t[j - 1] == r[|r| - 1];
    }
    TrimIs(t, i, j);
  }

  /** The first occurrence, pinned down by an occurrence with none before
      it. */
  lemma IndexOfIs(s: string, p: string, k: nat)
    requires OccursAt(s, p, k)
    requires forall j :: 0 <= j < k ==> !OccursAt(s, p, j)
    ensures IndexOf(s, p) == k
  {
  }

  /** Splitting on a one-character separator splits each side of one of its
      occurrences separately. */
  lemma {:induction false} SplitAppend(a: string, c: char, b: string)
    ensures SplitOn(a + [c] + b, [c]) == SplitOn(a, [c]) + SplitOn(b, [c])
    decreases |a|
  {
    var k := IndexOf(a, [c]);
    FirstCharOf(a, c, b);
    if k < 0 {
      SplitFirstPiece(a, c, b);
    } else {
      SplitAppend(a[k + 1..], c, b);
      SplitAppendAt(a, c, b, k);
    }
  }

  /** The step of `SplitAppend` past the first separator inside `a`. */
  lemma SplitAppendAt(a: string, c: char, b: string, k: nat)
    requires k < |a| && IndexOf(a, [c]) == k && IndexOf(a + [c] + b, [c]) == k
    requires SplitOn(a[k + 1..] + [c] + b, [c]) == SplitOn(a[k + 1..], [c]) + SplitOn(b, [c])
    ensures SplitOn(a + [c] + b, [c]) == SplitOn(a, [c]) + SplitOn(b, [c])
  {
    var a' := a[k + 1..];
    CutAround(a, c, b, k);
    SplitAt(a + [c] + b, [c], k);
    SplitAt(a, [c], k);
    JoinPieces(SplitOn(a + [c] + b, [c]), SplitOn(a, [c]), SplitOn(b, [c]),
               SplitOn(a' + [c] + b, [c]), a[..k], SplitOn(a', [c]));
  }

  lemma JoinPieces(st: seq<string>, sa: seq<string>, sb: seq<string>, rest: seq<string>,
                   x: string, pa: seq<string>)
    requires st == [x] + rest && rest == pa + sb && sa == [x] + pa
    ensures st == sa + sb
  {
    assert [x] + (pa + sb) == [x] + pa + sb;
  }

  lemma SplitFirstPiece(a: string, c: char, b: string)
    requires IndexOf(a, [c]) < 0 && IndexOf(a + [c] + b, [c]) == |a|
    ensures SplitOn(a + [c] + b, [c]) == SplitOn(a, [c]) + SplitOn(b, [c])
  {
    var t := a + [c] + b;
    assert t[|a| + 1..] == b;
    assert t[..|a|] == a;
  }

  /** Splitting at a known first occurrence. */
  lemma SplitAt(s: string, sep: string, k: nat)
    requires |sep| > 0 && IndexOf(s, sep) == k
    ensures SplitOn(s, sep) == [s[..k]] + SplitOn(s[k + |sep|..], sep)
  {
  }

  lemma CutAround(a: string, c: char, b: string, k: nat)
    requires k < |a|
    ensures (a + [c] + b)[..k] == a[..k]
    ensures (a + [c] + b)[k + 1..] == a[k + 1..] + [c] + b
  {
  }

  /** The first occurrence of a character in `a + [c] + b`: the first in
      `a`, or the one placed after `a`. */
  lemma FirstCharOf(a: string, c: char, b: string)
    ensures IndexOf(a + [c] + b, [c]) == if IndexOf(a, [c]) < 0 then |a| else IndexOf(a, [c])
  {
    var t := a + [c] + b;
    var k := IndexOf(a, [c]);
    var e := if k < 0 then |a| else k;
    assert t[e..e + 1] == [c] by {
      if k >= 0 {
        assert a[k..k + 1] == [c];
      }
    }
    forall j | 0 <= j < e
      ensures !OccursAt(t, [c], j)
    {
      assert t[j..j + 1] == a[j..j + 1];
      assert !OccursAt(a, [c], j);
    }
    IndexOfIs(t, [c], e);
  }

  /** A text holding a part that contains a pattern contains it. */
  lemma ContainsInside(l: string, m: string, r: string, p: string)
    requires Contains(m, p)
    ensures Contains(l + m + r, p)
  {
    var x := IndexOf(m, p);
    OccursExtendLeft(l, m, p, x);
    OccursExtendRight(l + m, r, p, x + |l|);
    ContainsAt(l + m + r, p, x + |l|);
  }

  /** A text lacking a pattern lacks it in every part. */
  lemma LacksInMiddle(l: string, m: string, r: string, p: string)
    requires !Contains(l + m + r, p)
    ensures !Contains(m, p)
  {
    if Contains(m, p) {
      ContainsInside(l, m, r, p);
    }
  }

  /** Nothing before the first occurrence of a pattern contains it. */
  lemma BeforeFirst(s: string, p: string)
    requires |p| > 0 && Contains(s, p)
    ensures !Contains(s[..IndexOf(s, p)], p)
  {
    var k := IndexOf(s, p);
    if Contains(s[..k], p) {
      var i := IndexOf(s[..k], p);
      assert s[..k][i..i + |p|] == s[i..i + |p|];
      assert OccursAt(s, p, i);
    }
  }

  /** A string without the separator is a single piece. */
  lemma SplitWithout(a: string, sep: string)
    requires |sep| > 0 && !Contains(a, sep)
    ensures SplitOn(a, sep) == [a]
  {
  }

  /** Joining two non-empty lists puts one separator between them. */
  lemma {:induction false} JoinAppend(a: seq<string>, b: seq<string>, sep: string)
    requires |a| > 0 && |b| > 0
    ensures JoinWith(a + b, sep) == JoinWith(a, sep) + sep + JoinWith(b, sep)
    decreases |a|
  {
    if |a| == 1 {
      assert (a + b)[1..] == b;
    } else {
      assert (a + b)[1..] == a[1..] + b;
      JoinAppend(a[1..], b, sep);
    }
  }

  /** Skipping the leading white space does not change the trim. */
  lemma TrimSkipSpace(s: string)
    ensures Trim(SkipSpace(s)) == Trim(s)
  {
    var r := SkipSpace(s);
    TrimSpacePrefix(s[..|s| - |r|], r);
  }

  /** A string lacking one of the characters of `p` does not contain `p`. */
  lemma NotContainsByChar(s: string, p: string, q: nat)
    requires q < |p| && p[q] !in s
    ensures !Contains(s, p)
  {
    if Contains(s, p) {
      var i := IndexOf(s, p);
      OccursCharAt(s, p, i, i + q);
    }
  }

  /** A string shorter than `p` does not contain it. */
  lemma ShortLacks(s: string, p: string)
    requires |s| < |p|
    ensures !Contains(s, p)
  {
  }

  /** The lines of a text whose first and last lines are `a` and `c`. */
  lemma SplitAround(a: string, body: string, c: string)
    requires '\n' !in a && '\n' !in c
    ensures SplitOn(a + "\n" + body + "\n" + c, "\n") == [a] + SplitOn(body, "\n") + [c]
  {
    var nl: string := ['\n'];
    var tail := body + nl + c;
    assert a + "\n" + body + "\n" + c == a + nl + tail;
    NotContainsByChar(a, nl, 0);
    NotContainsByChar(c, nl, 0);
    SplitWithout(a, nl);
    SplitWithout(c, nl);
    SplitAppend(body, '\n', c);
    assert SplitOn(tail, nl) == SplitOn(body, nl) + [c];
    SplitAppend(a, '\n', tail);
  }

  /** The same text followed by a line break has an empty last line. */
  lemma SplitAroundTrailing(a: string, body: string, c: string)
    requires '\n' !in a && '\n' !in c
    ensures SplitOn(a + "\n" + body + "\n" + c + "\n", "\n") == [a] + SplitOn(body, "\n") + [c, ""]
  {
    var s := a + "\n" + body + "\n" + c;
    SplitAround(a, body, c);
    assert s + "\n" == s + ['\n'] + "";
    SplitAppend(s, '\n', "");
    SplitWithout("", "\n");
  }
}
