/** The POSIX flavour of Node's `path` module, as far as the pipeline uses
    it: `normalize`, `resolve`, `join`, `dirname`, `basename`, `extname` and
    `relative`. Everything is lexical: no file system access, no symbolic
    links. */
module Paths {
  import opened Strings

  // ---------------------------------------------------------------------
  // Segments
  // ---------------------------------------------------------------------

  predicate IsAbsolute(p: string) {
    |p| > 0 && p[0] == '/'
  }

  /** A path segment that names a child: not empty, not `.` or `..`, no
      separator. */
  predicate ProperSegment(s: string) {
    s != "" && s != "." && s != ".." && '/' !in s
  }

  predicate AllProper(segs: seq<string>) {
    forall i :: 0 <= i < |segs| ==> ProperSegment(segs[i])
  }

  /** What `normalizeString` keeps from a path as segments: no empty
      pieces, no `.`, no separators. `..` may occur. */
  predicate LooseSegment(s: string) {
    s != "" && s != "." && '/' !in s
  }

  /** The index of the first separator, or `|p|`. */
  function FirstSlash(p: string): (k: nat)
    ensures k <= |p|
    ensures forall i :: 0 <= i < k ==> p[i] != '/'
    ensures k < |p| ==> p[k] == '/'
  {
    if |p| == 0 || p[0] == '/' then 0 else 1 + FirstSlash(p[1..])
  }

  lemma FirstSlashIs(p: string, k: nat)
    requires k <= |p|
    requires forall i :: 0 <= i < k ==> p[i] != '/'
    requires k < |p| ==> p[k] == '/'
    ensures FirstSlash(p) == k
  {
  }

  /** The segments of `p` in order: the text between separators, dropping
      empty pieces and `.`. */
  function Segments(p: string): (segs: seq<string>)
    ensures forall i :: 0 <= i < |segs| ==> LooseSegment(segs[i])
    decreases |p|
  {
    var k := FirstSlash(p);
    var rest := if k < |p| then Segments(p[k + 1..]) else [];
    var head := p[..k];
    assert '/' !in head by {
      assert forall i :: 0 <= i < |head| ==> head[i] == p[i];
    }
    if head == "" || head == "." then rest else [head] + rest
  }

  /** A piece without separators is at most one segment. */
  lemma SegmentsOfPiece(s: string)
    requires '/' !in s
    ensures Segments(s) == if s == "" || s == "." then [] else [s]
  {
    FirstSlashIs(s, |s|);
    assert s[..|s|] == s;
  }

  /** A separator splits the segments: the segments of `a/b` are those of
      `a` followed by those of `b`. */
  lemma {:induction false} SegmentsAppend(a: string, b: string)
    ensures Segments(a + "/" + b) == Segments(a) + Segments(b)
    decreases |a|
  {
    var p := a + "/" + b;
    var k := FirstSlash(a);
    if k == |a| {
      FirstSlashIs(p, |a|);
      assert p[..|a|] == a;
      assert p[|a| + 1..] == b;
      SegmentsOfPiece(a);
      assert a[..k] == a;
    } else {
      FirstSlashIs(p, k);
      assert p[..k] == a[..k];
      assert p[k + 1..] == a[k + 1..] + "/" + b;
      SegmentsAppend(a[k + 1..], b);
    }
  }

  lemma SegmentsLeadingSlash(b: string)
    ensures Segments("/" + b) == Segments(b)
  {
    SegmentsAppend("", b);
    assert "" + "/" + b == "/" + b;
    SegmentsOfPiece("");
  }

  /** Joining segments with `/` and splitting again gives them back. */
  lemma {:induction false} SegmentsOfJoin(segs: seq<string>)
    requires forall i :: 0 <= i < |segs| ==> LooseSegment(segs[i])
    ensures Segments(JoinWith(segs, "/")) == segs
    decreases |segs|
  {
    if |segs| == 0 {
      SegmentsOfPiece("");
    } else if |segs| == 1 {
      SegmentsOfPiece(segs[0]);
    } else {
      SegmentsOfJoin(segs[1..]);
      SegmentsOfJoinStep(segs);
    }
  }

  lemma SegmentsOfJoinStep(segs: seq<string>)
    requires |segs| > 1 && LooseSegment(segs[0])
    requires Segments(JoinWith(segs[1..], "/")) == segs[1..]
    ensures Segments(JoinWith(segs, "/")) == segs
  {
    assert JoinWith(segs, "/") == segs[0] + "/" + JoinWith(segs[1..], "/");
    SegmentsAppend(segs[0], JoinWith(segs[1..], "/"));
    SegmentsOfPiece(segs[0]);
    assert segs == [segs[0]] + segs[1..];
  }

  /** `/` followed by the segments joined with `/`. */
  function AbsoluteOf(segs: seq<string>): string {
    "/" + JoinWith(segs, "/")
  }

  lemma SegmentsOfAbsolute(segs: seq<string>)
    requires forall i :: 0 <= i < |segs| ==> LooseSegment(segs[i])
    ensures Segments(AbsoluteOf(segs)) == segs
  {
    SegmentsLeadingSlash(JoinWith(segs, "/"));
    SegmentsOfJoin(segs);
  }

  /** Segments joined with `/` end with the last segment. */
  lemma {:induction false} JoinEndsWithLast(segs: seq<string>)
    requires |segs| > 0
    ensures EndsWith(JoinWith(segs, "/"), segs[|segs| - 1])
    decreases |segs|
  {
    if |segs| > 1 {
      JoinEndsWithLast(segs[1..]);
      var j := JoinWith(segs[1..], "/");
      var last := segs[|segs| - 1];
      assert (segs[0] + "/" + j)[|segs[0] + "/" + j| - |last|..] == j[|j| - |last|..];
    }
  }

  /** Hence, for non-empty segments, the joined string ends in the last
      segment's last character, which is no separator. */
  lemma JoinLastChar(segs: seq<string>)
    requires |segs| > 0 && forall i :: 0 <= i < |segs| ==> LooseSegment(segs[i])
    ensures var j := JoinWith(segs, "/");
            |j| > 0 && j[|j| - 1] != '/'
  {
    JoinEndsWithLast(segs);
    var j := JoinWith(segs, "/");
    var last := segs[|segs| - 1];
    assert LooseSegment(last);
    assert j[|j| - |last|..][|last| - 1] == last[|last| - 1];
  }

  /** A canonical absolute path: `/`, or `/` followed by proper segments
      joined with single separators (so no `.`, no `..`, no repeated or
      trailing separator). */
  predicate Canonical(p: string) {
    AllProper(Segments(p)) && p == AbsoluteOf(Segments(p))
  }

  lemma CanonicalOf(segs: seq<string>)
    requires AllProper(segs)
    ensures Canonical(AbsoluteOf(segs)) && Segments(AbsoluteOf(segs)) == segs
  {
    SegmentsOfAbsolute(segs);
  }

  // ---------------------------------------------------------------------
  // normalizeString: the segment stack
  // ---------------------------------------------------------------------

  /** One step of `normalizeString`: `..` pops the last segment unless the
      stack is empty or ends in `..`; above the root it is kept only for
      relative paths. */
  function Push(stack: seq<string>, seg: string, allowAboveRoot: bool): seq<string> {
    if seg != ".." then stack + [seg]
    else if |stack| > 0 && stack[|stack| - 1] != ".." then stack[..|stack| - 1]
    else if allowAboveRoot then stack + [".."]
    else stack
  }

  function NormFrom(stack: seq<string>, segs: seq<string>, allowAboveRoot: bool): seq<string>
    decreases |segs|
  {
    if |segs| == 0 then stack
    else NormFrom(Push(stack, segs[0], allowAboveRoot), segs[1..], allowAboveRoot)
  }

  /** `normalizeString` on a path's segments. */
  function NormSegments(segs: seq<string>, allowAboveRoot: bool): (r: seq<string>)
    requires forall i :: 0 <= i < |segs| ==> LooseSegment(segs[i])
    ensures forall i :: 0 <= i < |r| ==> LooseSegment(r[i])
    ensures !allowAboveRoot ==> AllProper(r)
  {
    NormLoose([], segs, allowAboveRoot);
    NormFrom([], segs, allowAboveRoot)
  }

  lemma {:induction false} NormLoose(stack: seq<string>, segs: seq<string>, allowAboveRoot: bool)
    requires forall i :: 0 <= i < |stack| ==> LooseSegment(stack[i])
    requires !allowAboveRoot ==> AllProper(stack)
    requires forall i :: 0 <= i < |segs| ==> LooseSegment(segs[i])
    ensures forall i :: 0 <= i < |NormFrom(stack, segs, allowAboveRoot)| ==>
              LooseSegment(NormFrom(stack, segs, allowAboveRoot)[i])
    ensures !allowAboveRoot ==> AllProper(NormFrom(stack, segs, allowAboveRoot))
    decreases |segs|
  {
    if |segs| > 0 {
      var next := Push(stack, segs[0], allowAboveRoot);
      assert LooseSegment(segs[0]);
      assert LooseSegment("..");
      assert forall i :: 0 <= i < |next| ==> next[i] == segs[0] || next[i] == ".." || next[i] == stack[i];
      NormLoose(next, segs[1..], allowAboveRoot);
    }
  }

  /** Proper segments are pushed as they are. */
  lemma {:induction false} NormProper(stack: seq<string>, segs: seq<string>, allowAboveRoot: bool)
    requires AllProper(segs)
    ensures NormFrom(stack, segs, allowAboveRoot) == stack + segs
    decreases |segs|
  {
    if |segs| > 0 {
      assert ProperSegment(segs[0]);
      NormProper(stack + [segs[0]], segs[1..], allowAboveRoot);
      assert stack + [segs[0]] + segs[1..] == stack + segs;
    }
  }

  /** Normalising in two runs is normalising the concatenation. */
  lemma {:induction false} NormAppend(stack: seq<string>, a: seq<string>, b: seq<string>, allowAboveRoot: bool)
    ensures NormFrom(stack, a + b, allowAboveRoot) == NormFrom(NormFrom(stack, a, allowAboveRoot), b, allowAboveRoot)
    decreases |a|
  {
    if |a| == 0 {
      assert a + b == b;
    } else {
      assert (a + b)[0] == a[0];
      assert (a + b)[1..] == a[1..] + b;
      NormAppend(Push(stack, a[0], allowAboveRoot), a[1..], b, allowAboveRoot);
    }
  }

  // ---------------------------------------------------------------------
  // normalize, resolve, join
  // ---------------------------------------------------------------------

  /** `path.normalize(p)`. */
  function Normalize(p: string): (r: string)
    ensures |r| > 0
    ensures IsAbsolute(p) ==> IsAbsolute(r)
  {
    if p == "" then "."
    else
      var absolute := p[0] == '/';
      var trailing := p[|p| - 1] == '/';
      var body := JoinWith(NormSegments(Segments(p), !absolute), "/");
      if body == "" then (if absolute then "/" else if trailing then "./" else ".")
      else
        var withTrailing := if trailing then body + "/" else body;
        if absolute then "/" + withTrailing else withTrailing
  }

  /** Normalising a canonical path changes nothing. */
  lemma NormalizeCanonical(p: string)
    requires Canonical(p)
    ensures Normalize(p) == p
  {
    var segs := Segments(p);
    NormProper([], segs, false);
    assert [] + segs == segs;
    if |segs| > 0 {
      JoinLastChar(segs);
      assert p[|p| - 1] == JoinWith(segs, "/")[|JoinWith(segs, "/")| - 1];
    }
  }

  /** The segments `path.resolve` assembles before normalising: it walks the
      arguments right to left, prefixing each non-empty one with a separator
      in between, and stops after the first absolute one; the working
      directory `cwd` comes last. A separator splits segments
      (`SegmentsAppend`), so the walk is a concatenation of segment lists. */
  function ResolveSegments(cwd: string, paths: seq<string>): seq<string>
    decreases |paths|
  {
    if |paths| == 0 then Segments(cwd)
    else
      var p := paths[|paths| - 1];
      var init := paths[..|paths| - 1];
      if p == "" then ResolveSegments(cwd, init)
      else if p[0] == '/' then Segments(p)
      else ResolveSegments(cwd, init) + Segments(p)
  }

  lemma ResolveSegmentsLoose(cwd: string, paths: seq<string>)
    ensures forall i :: 0 <= i < |ResolveSegments(cwd, paths)| ==> LooseSegment(ResolveSegments(cwd, paths)[i])
  {
  }

  /** `path.resolve(...paths)` with `process.cwd()` = `cwd`. The working
      directory is absolute, so the result always is: a canonical absolute
      path. */
  function Resolve(cwd: string, paths: seq<string>): (r: string)
    requires IsAbsolute(cwd)
    ensures Canonical(r)
  {
    ResolveSegmentsLoose(cwd, paths);
    var segs := NormSegments(ResolveSegments(cwd, paths), false);
    CanonicalOf(segs);
    AbsoluteOf(segs)
  }

  /** The segments of a resolved path: the normalised walk. */
  lemma ResolveIs(cwd: string, paths: seq<string>)
    requires IsAbsolute(cwd)
    ensures Segments(Resolve(cwd, paths)) == NormFrom([], ResolveSegments(cwd, paths), false)
  {
    ResolveSegmentsLoose(cwd, paths);
    CanonicalOf(NormSegments(ResolveSegments(cwd, paths), false));
  }

  /** Resolving a second, relative argument continues the normalisation of
      the first from where it stopped. */
  lemma ResolveRelativeTail(cwd: string, base: string, user: string)
    requires IsAbsolute(cwd) && !IsAbsolute(user)
    ensures Segments(Resolve(cwd, [base, user])) == NormFrom(Segments(Resolve(cwd, [base])), Segments(user), false)
  {
    ResolveIs(cwd, [base, user]);
    ResolveIs(cwd, [base]);
    assert [base, user][..1] == [base];
    if user == "" {
      SegmentsOfPiece("");
    } else {
      NormAppend([], ResolveSegments(cwd, [base]), Segments(user), false);
    }
  }

  /** An absolute second argument discards the first. */
  lemma ResolveAbsoluteUser(cwd: string, base: string, user: string)
    requires IsAbsolute(cwd) && IsAbsolute(user)
    ensures Resolve(cwd, [base, user]) == Resolve(cwd, [user])
  {
    assert [user][..0] == [];
  }

  /** `path.join(a, b)`: the non-empty arguments joined with `/`, then
      normalised; `.` when both are empty. */
  function Join(a: string, b: string): (r: string)
    ensures |r| > 0
  {
    if a == "" && b == "" then "."
    else if a == "" then Normalize(b)
    else if b == "" then Normalize(a)
    else Normalize(a + "/" + b)
  }

  /** An absolute path without a trailing separator whose segments are
      proper normalises to `/` and its segments. */
  lemma NormalizeProperAbsolute(p: string)
    requires IsAbsolute(p) && p[|p| - 1] != '/' && AllProper(Segments(p))
    ensures Normalize(p) == AbsoluteOf(Segments(p))
  {
    var segs := Segments(p);
    NormProper([], segs, false);
    assert [] + segs == segs;
    if |segs| == 0 {
      assert JoinWith(segs, "/") == "";
    } else {
      JoinLastChar(segs);
    }
  }

  /** Joining a proper segment onto a canonical directory names a child of
      it. */
  lemma JoinChild(dir: string, name: string)
    requires Canonical(dir) && ProperSegment(name)
    ensures Join(dir, name) == AbsoluteOf(Segments(dir) + [name])
    ensures Canonical(Join(dir, name))
  {
    var segs := Segments(dir) + [name];
    var p := dir + "/" + name;
    SegmentsAppend(dir, name);
    SegmentsOfPiece(name);
    assert Segments(p) == segs;
    assert AllProper(segs);
    assert p[|p| - 1] == name[|name| - 1];
    NormalizeProperAbsolute(p);
    CanonicalOf(segs);
  }

  // ---------------------------------------------------------------------
  // dirname, basename, extname
  // ---------------------------------------------------------------------

  /** The backwards scan of `path.dirname`: the index of the last separator
      that follows a non-separator, looking at indices `1..i`; -1 if none. */
  function DirEnd(p: string, i: int, matchedSlash: bool): (end: int)
    requires i < |p|
    ensures end == -1 || 1 <= end <= i
    decreases i
  {
    if i < 1 then -1
    else if p[i] == '/' then (if !matchedSlash then i else DirEnd(p, i - 1, matchedSlash))
    else DirEnd(p, i - 1, false)
  }

  /** `path.dirname(p)`. */
  function Dirname(p: string): (r: string)
    ensures |r| > 0
  {
    if |p| == 0 then "."
    else
      var end := DirEnd(p, |p| - 1, true);
      if end == -1 then (if p[0] == '/' then "/" else ".")
      else if p[0] == '/' && end == 1 then "//"
      else p[..end]
  }

  lemma {:induction false} DirEndSkips(p: string, k: int, i: int, m: bool)
    requires 0 <= k <= i < |p|
    requires forall j :: k < j <= i ==> p[j] != '/'
    requires k < i || !m
    ensures DirEnd(p, i, m) == DirEnd(p, k, false)
    decreases i
  {
    if i > k {
      DirEndSkips(p, k, i - 1, false);
    }
  }

  /** The directory of `d/s`, for a last segment `s`, is `d` (or `/`
      when `d` is empty). */
  lemma DirnameOfChild(d: string, s: string)
    requires s != "" && '/' !in s
    requires d == "" || d[|d| - 1] != '/'
    ensures Dirname(d + "/" + s) == if d == "" then "/" else d
  {
    var p := d + "/" + s;
    assert forall j :: |d| < j <= |p| - 1 ==> p[j] == s[j - |d| - 1];
    DirEndSkips(p, |d|, |p| - 1, true);
    if d == "" {
      assert DirEnd(p, 0, false) == -1;
    } else {
      assert p[|d|] == '/';
      assert p[..|d|] == d;
      if p[0] == '/' && |d| == 1 {
        assert false;
      }
    }
  }

  /** The text after the last separator. */
  function LastPiece(p: string): (r: string)
    ensures '/' !in r
    ensures |r| <= |p| && r == p[|p| - |r|..]
    ensures |r| < |p| ==> p[|p| - |r| - 1] == '/'
    decreases |p|
  {
    if |p| == 0 then ""
    else if p[|p| - 1] == '/' then ""
    else
      var q := LastPiece(p[..|p| - 1]);
      LastPieceStep(p, q);
      q + [p[|p| - 1]]
  }

  /** One more character that is no separator extends the last piece. */
  lemma LastPieceStep(p: string, q: string)
    requires |p| > 0 && p[|p| - 1] != '/' && '/' !in q
    requires |q| <= |p| - 1 && q == p[..|p| - 1][|p| - 1 - |q|..]
    requires |q| < |p| - 1 ==> p[..|p| - 1][|p| - 1 - |q| - 1] == '/'
    ensures var r := q + [p[|p| - 1]];
            && '/' !in r && r == p[|p| - |r|..]
            && (|r| < |p| ==> p[|p| - |r| - 1] == '/')
  {
    assert p[..|p| - 1][|p| - 1 - |q|..] + [p[|p| - 1]] == p[|p| - 1 - |q|..];
  }

  /** A separator at `q` bounds every separator-free suffix of `p` to the
      text after `q`. */
  lemma SlashBoundsSuffix(p: string, r: string, q: int)
    requires '/' !in r && |r| <= |p| && r == p[|p| - |r|..]
    requires 0 <= q < |p| ==> p[q] == '/'
    ensures 0 <= q < |p| ==> |r| <= |p| - q - 1
  {
    assert forall k :: |p| - |r| <= k < |p| ==> p[k] == r[k - (|p| - |r|)];
  }

  lemma LastPieceOfChild(d: string, s: string)
    requires '/' !in s
    ensures LastPiece(d + "/" + s) == s
  {
    var p := d + "/" + s;
    var r := LastPiece(p);
    SlashBoundsSuffix(p, r, |p| - |s| - 1);
    SlashBoundsSuffix(p, s, |p| - |r| - 1);
    assert p[|p| - |s|..] == s;
  }

  lemma LastPieceOfPiece(s: string)
    requires '/' !in s
    ensures LastPiece(s) == s
  {
    var r := LastPiece(s);
    assert s[|s| - |r|..] == s[0..];
  }

  /** `path.basename(p, suffix)` for a path without a trailing separator:
      the last piece, with `suffix` removed when the piece ends in it and is
      longer; `""` when the whole path is the suffix. */
  function Basename(p: string, suffix: string): (r: string)
    ensures '/' !in r
  {
    var b := LastPiece(p);
    if suffix != "" && p == suffix then ""
    else if |suffix| > 0 && |b| > |suffix| && EndsWith(b, suffix) then
      assert forall i :: 0 <= i < |b| - |suffix| ==> b[..|b| - |suffix|][i] == b[i];
      b[..|b| - |suffix|]
    else b
  }

  /** The basename of a path whose last piece is `stem` + `suffix`, with
      that suffix removed, is the stem. */
  lemma BasenameOfStem(p: string, stem: string, suffix: string)
    requires LastPiece(p) == stem + suffix && stem != "" && suffix != ""
    ensures Basename(p, suffix) == stem
  {
    var b := LastPiece(p);
    assert p != suffix;
    assert b[|b| - |suffix|..] == suffix;
    assert b[..|b| - |suffix|] == stem;
  }

  /** The index of the last `.` in `s`, or -1. */
  function LastDot(s: string): (d: int)
    ensures -1 <= d < |s|
    ensures d >= 0 ==> s[d] == '.'
    ensures forall i :: d < i < |s| ==> s[i] != '.'
  {
    if |s| == 0 then -1
    else if s[|s| - 1] == '.' then |s| - 1
    else LastDot(s[..|s| - 1])
  }

  /** `path.extname(p)` for a path without a trailing separator: from the
      last `.` of the last piece, provided something precedes that dot in
      the piece and the piece is not `..`. */
  function Extname(p: string): (r: string)
    ensures r == "" || (r[0] == '.' && '.' !in r[1..] && EndsWith(LastPiece(p), r) && |r| < |LastPiece(p)|)
  {
    var b := LastPiece(p);
    var d := LastDot(b);
    if d <= 0 || b == ".." then ""
    else
      ExtensionAt(b, d);
      b[d..]
  }

  /** The text from the last dot of `b` on, when that dot is not the first
      character. */
  lemma ExtensionAt(b: string, d: int)
    requires 0 < d < |b| && b[d] == '.' && forall i :: d < i < |b| ==> b[i] != '.'
    ensures var r := b[d..];
            r[0] == '.' && '.' !in r[1..] && EndsWith(b, r) && |r| < |b|
  {
    assert b[|b| - |b[d..]|..] == b[d..];
    assert forall i :: 0 <= i < |b[d..][1..]| ==> b[d..][1..][i] == b[d + 1 + i];
  }

  // ---------------------------------------------------------------------
  // relative
  // ---------------------------------------------------------------------

  /** The length of the longest common prefix of two segment lists. */
  function CommonPrefix(a: seq<string>, b: seq<string>): (n: nat)
    ensures n <= |a| && n <= |b| && a[..n] == b[..n]
    ensures n < |a| && n < |b| ==> a[n] != b[n]
  {
    if |a| == 0 || |b| == 0 || a[0] != b[0] then 0
    else
      var n := 1 + CommonPrefix(a[1..], b[1..]);
      assert a[..n] == [a[0]] + a[1..][..n - 1];
      assert b[..n] == [b[0]] + b[1..][..n - 1];
      n
  }

  function Ups(n: nat): (r: seq<string>)
    ensures |r| == n && forall i :: 0 <= i < n ==> r[i] == ".."
  {
    if n == 0 then [] else Ups(n - 1) + [".."]
  }

  /** `path.relative(from, to)`: both are resolved; the result climbs out
      of the part of `from` not shared with `to` and descends into the
      rest of `to`. Node compares the resolved strings character by
      character, stopping at separators, which for canonical paths is the
      segment-wise common prefix used here. */
  function Relative(cwd: string, from: string, to: string): (r: string)
    requires IsAbsolute(cwd)
  {
    RelativeOf(Segments(Resolve(cwd, [from])), Segments(Resolve(cwd, [to])))
  }

  /** The relative path between two segment lists. */
  function RelativeOf(f: seq<string>, t: seq<string>): string {
    var c := CommonPrefix(f, t);
    JoinWith(Ups(|f| - c) + t[c..], "/")
  }

  /** `..` climbs back over as many proper segments. */
  lemma {:induction false} ClimbUps(stack: seq<string>, n: nat)
    requires n <= |stack| && AllProper(stack)
    ensures NormFrom(stack, Ups(n), false) == stack[..|stack| - n]
    decreases n
  {
    if n > 0 {
      assert Ups(n) == Ups(n - 1) + [".."];
      NormAppend(stack, Ups(n - 1), [".."], false);
      ClimbUps(stack, n - 1);
      var s := stack[..|stack| - (n - 1)];
      assert s[..|s| - 1] == stack[..|stack| - n];
      assert ProperSegment(stack[|stack| - n]);
    }
  }

  /** Resolving a canonical path changes nothing. */
  lemma ResolveCanonical(cwd: string, p: string)
    requires IsAbsolute(cwd) && Canonical(p)
    ensures Resolve(cwd, [p]) == p
  {
    ResolveIs(cwd, [p]);
    assert [p][..0] == [];
    NormProper([], Segments(p), false);
    assert [] + Segments(p) == Segments(p);
  }

  /** What `relative` returns: a relative path whose segments are the
      climb out of `from` followed by the rest of `to`. */
  lemma RelativeShape(cwd: string, from: string, to: string)
    requires IsAbsolute(cwd)
    ensures var f := Segments(Resolve(cwd, [from]));
            var t := Segments(Resolve(cwd, [to]));
            var c := CommonPrefix(f, t);
            var r := Relative(cwd, from, to);
            && !IsAbsolute(r)
            && Segments(r) == Ups(|f| - c) + t[c..]
  {
    RelativeOfShape(Segments(Resolve(cwd, [from])), Segments(Resolve(cwd, [to])));
  }

  lemma RelativeOfShape(f: seq<string>, t: seq<string>)
    requires AllProper(t)
    ensures var c := CommonPrefix(f, t);
            && !IsAbsolute(RelativeOf(f, t))
            && Segments(RelativeOf(f, t)) == Ups(|f| - c) + t[c..]
  {
    var c := CommonPrefix(f, t);
    ClimbLoose(|f| - c, t, c);
    JoinedSegments(Ups(|f| - c) + t[c..]);
  }

  /** The climb and the descent are loose segments. */
  lemma ClimbLoose(n: nat, t: seq<string>, c: nat)
    requires AllProper(t) && c <= |t|
    ensures forall i :: 0 <= i < |Ups(n) + t[c..]| ==> LooseSegment((Ups(n) + t[c..])[i])
  {
  }

  /** Loose segments joined with `/` form a relative path with those
      segments. */
  lemma JoinedSegments(rel: seq<string>)
    requires forall i :: 0 <= i < |rel| ==> LooseSegment(rel[i])
    ensures !IsAbsolute(JoinWith(rel, "/")) && Segments(JoinWith(rel, "/")) == rel
  {
    SegmentsOfJoin(rel);
    if |rel| > 0 {
      JoinFirstChar(rel);
    }
  }

  /** Climbing out of `f` to the common prefix and descending into the
      rest of `t` arrives at `t`. */
  lemma ClimbThenDescend(f: seq<string>, t: seq<string>)
    requires AllProper(f) && AllProper(t)
    ensures var c := CommonPrefix(f, t);
            NormFrom(f, Ups(|f| - c) + t[c..], false) == t
  {
    ClimbThenDescendAt(f, t, CommonPrefix(f, t));
  }

  lemma ClimbThenDescendAt(f: seq<string>, t: seq<string>, c: nat)
    requires AllProper(f) && AllProper(t)
    requires c <= |f| && c <= |t| && f[..c] == t[..c]
    ensures NormFrom(f, Ups(|f| - c) + t[c..], false) == t
  {
    NormAppend(f, Ups(|f| - c), t[c..], false);
    ClimbUps(f, |f| - c);
    assert f[..|f| - (|f| - c)] == t[..c];
    assert AllProper(t[c..]);
    NormProper(t[..c], t[c..], false);
    assert t[..c] + t[c..] == t;
  }

  /** Resolving `relative(from, to)` against `from` gives `to` back. */
  lemma RelativeRoundTrip(cwd: string, from: string, to: string)
    requires IsAbsolute(cwd)
    ensures Resolve(cwd, [Resolve(cwd, [from]), Relative(cwd, from, to)]) == Resolve(cwd, [to])
  {
    var f := Resolve(cwd, [from]);
    var t := Resolve(cwd, [to]);
    RelativeOfShape(Segments(f), Segments(t));
    ResolveClimb(cwd, f, t, RelativeOf(Segments(f), Segments(t)));
  }

  /** Resolving a relative path that climbs out of canonical `f` to the
      common prefix and descends into the rest of canonical `t` gives `t`. */
  lemma ResolveClimb(cwd: string, f: string, t: string, r: string)
    requires IsAbsolute(cwd) && Canonical(f) && Canonical(t) && !IsAbsolute(r)
    requires var c := CommonPrefix(Segments(f), Segments(t));
             Segments(r) == Ups(|Segments(f)| - c) + Segments(t)[c..]
    ensures Resolve(cwd, [f, r]) == t
  {
    ResolveRelativeTail(cwd, f, r);
    ResolveCanonical(cwd, f);
    ClimbThenDescend(Segments(f), Segments(t));
    var back := Resolve(cwd, [f, r]);
    assert Segments(back) == Segments(t);
  }

  /** Segments joined with `/` start with the first segment's first
      character. */
  lemma JoinFirstChar(segs: seq<string>)
    requires |segs| > 0 && segs[0] != ""
    ensures var j := JoinWith(segs, "/");
            |j| > 0 && j[0] == segs[0][0]
  {
  }

  // ---------------------------------------------------------------------
  // Prefixes of absolute paths
  // ---------------------------------------------------------------------

  lemma {:induction false} JoinSnoc(segs: seq<string>, s: string)
    ensures JoinWith(segs + [s], "/") == if |segs| == 0 then s else JoinWith(segs, "/") + "/" + s
    decreases |segs|
  {
    if |segs| == 1 {
      assert (segs + [s])[1..] == [s];
    } else if |segs| > 1 {
      assert (segs + [s])[1..] == segs[1..] + [s];
      JoinSnoc(segs[1..], s);
    }
  }

  /** One more segment: `/a/b` + `/s`, or `/s` under the root. */
  lemma AbsoluteSnoc(segs: seq<string>, s: string)
    ensures AbsoluteOf(segs + [s]) == if |segs| == 0 then "/" + s else AbsoluteOf(segs) + "/" + s
  {
    JoinSnoc(segs, s);
  }

  /** A path below `b` segment-wise also extends it character-wise. */
  lemma {:induction false} AbsolutePrefix(b: seq<string>, rest: seq<string>)
    ensures StartsWith(AbsoluteOf(b + rest), AbsoluteOf(b))
    decreases |rest|
  {
    if |rest| == 0 {
      assert b + rest == b;
    } else {
      var init := rest[..|rest| - 1];
      var s := rest[|rest| - 1];
      assert b + rest == (b + init) + [s];
      AbsolutePrefix(b, init);
      AbsoluteSnoc(b + init, s);
      var a := AbsoluteOf(b + init);
      var full := AbsoluteOf(b + rest);
      assert full[..|a|] == a by {
        if |b + init| == 0 {
          assert a == "/";
        } else {
          assert full == a + "/" + s;
        }
      }
      assert full[..|AbsoluteOf(b)|] == a[..|AbsoluteOf(b)|];
    }
  }

  /** Dropping the last segment gives a strictly shorter path. */
  lemma AbsoluteParentShorter(segs: seq<string>)
    requires |segs| > 0 && segs[|segs| - 1] != ""
    ensures |AbsoluteOf(segs[..|segs| - 1])| < |AbsoluteOf(segs)|
  {
    assert segs == segs[..|segs| - 1] + [segs[|segs| - 1]];
    AbsoluteSnoc(segs[..|segs| - 1], segs[|segs| - 1]);
  }

  /** A file joined onto a canonical directory lies directly in it: its
      directory is that directory and its last piece is the file name. */
  lemma ChildPathParts(dir: string, file: string)
    requires Canonical(dir) && ProperSegment(file)
    ensures Dirname(Join(dir, file)) == dir
    ensures LastPiece(Join(dir, file)) == file
  {
    var segs := Segments(dir);
    JoinChild(dir, file);
    AbsoluteSnoc(segs, file);
    if |segs| == 0 {
      assert Join(dir, file) == "" + "/" + file;
      DirnameOfChild("", file);
      LastPieceOfChild("", file);
    } else {
      JoinLastChar(segs);
      DirnameOfChild(dir, file);
      LastPieceOfChild(dir, file);
    }
  }
}
