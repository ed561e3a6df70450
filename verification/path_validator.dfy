/** The path checks that guard every file the pipeline writes: a resolved
    path must stay under its base directory, and a component name becomes a
    file name only after unsafe characters are removed. `process.cwd()` is
    the parameter `cwd`. */
module PathValidator {
  import opened Wrappers
  import opened Strings
  import opened Paths

  const TraversalError := "Invalid path: Path traversal detected. Path must be within the project directory."
  const NameRequiredError := "Component name must be a non-empty string"
  const NoValidCharactersError := "Component name contains no valid characters"
  const OnlyDotsError := "Invalid component name: cannot be only dots"

  // ---------------------------------------------------------------------
  // validatePath
  // ---------------------------------------------------------------------

  /** `validatePath(basePath, userPath)`: both paths resolved against the
      working directory and normalised; the user path is accepted when its
      text starts with the base path's text. The check is on characters, not
      on segments (see `SiblingWithCommonPrefixAccepted`). */
  function ValidatePath(cwd: string, basePath: string, userPath: string): (r: Result<string, string>)
    requires IsAbsolute(cwd)
    ensures r.Ok? <==> StartsWith(Resolve(cwd, [basePath, userPath]), Resolve(cwd, [basePath]))
    ensures r.Ok? ==> r.value == Resolve(cwd, [basePath, userPath]) && Canonical(r.value)
    ensures r.Err? ==> r.error == TraversalError
  {
    var resolvedBase := Resolve(cwd, [basePath]);
    var resolvedUser := Resolve(cwd, [basePath, userPath]);
    NormalizeCanonical(resolvedBase);
    NormalizeCanonical(resolvedUser);
    var normalizedBase := Normalize(resolvedBase);
    var normalizedUser := Normalize(resolvedUser);
    if !StartsWith(normalizedUser, normalizedBase) then Err(TraversalError)
    else Ok(normalizedUser)
  }

  /** Two canonical paths with the same segments are the same path. */
  lemma CanonicalBySegments(p: string, q: string)
    requires Canonical(p) && Canonical(q) && Segments(p) == Segments(q)
    ensures p == q
  {
  }

  /** The base directory itself (`.` or an empty user path) is accepted and
      names the resolved base. */
  lemma CurrentDirectoryAccepted(cwd: string, basePath: string)
    requires IsAbsolute(cwd)
    ensures ValidatePath(cwd, basePath, ".") == Ok(Resolve(cwd, [basePath]))
    ensures ValidatePath(cwd, basePath, "") == Ok(Resolve(cwd, [basePath]))
  {
    var b := Resolve(cwd, [basePath]);
    ResolveRelativeTail(cwd, basePath, ".");
    ResolveRelativeTail(cwd, basePath, "");
    SegmentsOfPiece(".");
    SegmentsOfPiece("");
    CanonicalBySegments(Resolve(cwd, [basePath, "."]), b);
    CanonicalBySegments(Resolve(cwd, [basePath, ""]), b);
  }

  /** Whatever resolves to the base's segments followed by more segments is
      accepted. */
  lemma BelowBaseAccepted(cwd: string, basePath: string, userPath: string, rest: seq<string>)
    requires IsAbsolute(cwd)
    requires Segments(Resolve(cwd, [basePath, userPath])) == Segments(Resolve(cwd, [basePath])) + rest
    ensures ValidatePath(cwd, basePath, userPath) == Ok(Resolve(cwd, [basePath, userPath]))
  {
    var b := Segments(Resolve(cwd, [basePath]));
    AbsolutePrefix(b, rest);
  }

  /** A proper segment is accepted and names the child `path.join` builds. */
  lemma ChildAccepted(cwd: string, basePath: string, name: string)
    requires IsAbsolute(cwd) && ProperSegment(name)
    ensures ValidatePath(cwd, basePath, name) == Ok(Join(Resolve(cwd, [basePath]), name))
  {
    var dir := Resolve(cwd, [basePath]);
    var b := Segments(dir);
    ResolveRelativeTail(cwd, basePath, name);
    SegmentsOfPiece(name);
    NormProper(b, [name], false);
    JoinChild(dir, name);
    BelowBaseAccepted(cwd, basePath, name, [name]);
    CanonicalBySegments(Resolve(cwd, [basePath, name]), Join(dir, name));
  }

  /** Climbing out of any base other than the root is rejected. */
  lemma ParentRejected(cwd: string, basePath: string)
    requires IsAbsolute(cwd) && Resolve(cwd, [basePath]) != "/"
    ensures ValidatePath(cwd, basePath, "..") == Err(TraversalError)
  {
    var dir := Resolve(cwd, [basePath]);
    var b := Segments(dir);
    ResolveRelativeTail(cwd, basePath, "..");
    SegmentsOfPiece("..");
    assert |b| > 0;
    assert ProperSegment(b[|b| - 1]);
    var up := Resolve(cwd, [basePath, ".."]);
    assert Segments(up) == b[..|b| - 1];
    AbsoluteParentShorter(b);
  }

  /** An absolute user path below the base is accepted as it is. */
  lemma AbsoluteInsideAccepted(cwd: string, basePath: string, userPath: string)
    requires IsAbsolute(cwd) && Canonical(userPath)
    requires Segments(Resolve(cwd, [basePath])) <= Segments(userPath)
    ensures ValidatePath(cwd, basePath, userPath) == Ok(userPath)
  {
    var b := Segments(Resolve(cwd, [basePath]));
    var u := Segments(userPath);
    assert Resolve(cwd, [basePath, userPath]) == userPath by {
      ResolveAbsoluteUser(cwd, basePath, userPath);
      ResolveCanonical(cwd, userPath);
    }
    assert Segments(Resolve(cwd, [basePath, userPath])) == b + u[|b|..] by {
      PrefixRest(b, u);
    }
    BelowBaseAccepted(cwd, basePath, userPath, u[|b|..]);
  }

  lemma PrefixRest(b: seq<string>, u: seq<string>)
    requires b <= u
    ensures u == b + u[|b|..]
  {
  }

  /** `../s` has the segments `..` and `s`. */
  lemma SegmentsUpThen(s: string)
    requires ProperSegment(s)
    ensures Segments("../" + s) == ["..", s]
  {
    assert "../" + s == ".." + "/" + s;
    SegmentsAppend("..", s);
    SegmentsOfPiece("..");
    SegmentsOfPiece(s);
  }

  /** `..` then `s` replaces the last segment by `s`. */
  lemma NormUpThen(stack: seq<string>, last: string, s: string)
    requires ProperSegment(last) && ProperSegment(s)
    ensures NormFrom(stack + [last], ["..", s], false) == stack + [s]
  {
    var full := stack + [last];
    assert full[..|full| - 1] == stack;
    assert Push(full, "..", false) == stack;
    assert ["..", s][1..] == [s];
    assert NormFrom(full, ["..", s], false) == NormFrom(stack, [s], false);
    assert [s][1..] == [];
    assert NormFrom(stack, [s], false) == NormFrom(stack + [s], [], false);
  }

  /** The segments `../b<x>` resolves to from `…/b`: the sibling. */
  lemma SiblingSegments(cwd: string, parent: seq<string>, b: string, x: string)
    requires IsAbsolute(cwd) && AllProper(parent)
    requires ProperSegment(b) && ProperSegment(b + x)
    ensures Resolve(cwd, [AbsoluteOf(parent + [b]), "../" + b + x]) == AbsoluteOf(parent + [b + x])
  {
    var base := AbsoluteOf(parent + [b]);
    var user := "../" + (b + x);
    assert "../" + b + x == user;
    assert AllProper(parent + [b]);
    assert AllProper(parent + [b + x]);
    CanonicalOf(parent + [b]);
    CanonicalOf(parent + [b + x]);
    ResolveCanonical(cwd, base);
    SegmentsUpThen(b + x);
    ResolveRelativeTail(cwd, base, user);
    NormUpThen(parent, b, b + x);
    CanonicalBySegments(Resolve(cwd, [base, user]), AbsoluteOf(parent + [b + x]));
  }

  /** The sibling's text extends the base's text. */
  lemma SiblingTextExtends(parent: seq<string>, b: string, x: string)
    ensures StartsWith(AbsoluteOf(parent + [b + x]), AbsoluteOf(parent + [b]))
  {
    AbsoluteSnoc(parent, b);
    AbsoluteSnoc(parent, b + x);
    var head := if |parent| == 0 then "/" else AbsoluteOf(parent) + "/";
    var base := head + b;
    var sibling := head + b + x;
    assert sibling[..|base|] == base;
  }

  /** The prefix test compares characters: from base `…/b`, the path
      `../b<x>` names the sibling `…/b<x>`, which is not below the base, yet
      its text starts with the base's text and it is accepted. */
  lemma SiblingWithCommonPrefixAccepted(cwd: string, parent: seq<string>, b: string, x: string)
    requires IsAbsolute(cwd) && AllProper(parent)
    requires ProperSegment(b) && ProperSegment(b + x) && x != ""
    ensures ValidatePath(cwd, AbsoluteOf(parent + [b]), "../" + b + x) == Ok(AbsoluteOf(parent + [b + x]))
    ensures !(parent + [b] <= parent + [b + x])
  {
    var base := AbsoluteOf(parent + [b]);
    SiblingSegments(cwd, parent, b, x);
    SiblingTextExtends(parent, b, x);
    assert AllProper(parent + [b]);
    CanonicalOf(parent + [b]);
    ResolveCanonical(cwd, base);
    SiblingNotBelow(parent, b, x);
  }

  lemma SiblingNotBelow(parent: seq<string>, b: string, x: string)
    requires x != ""
    ensures !(parent + [b] <= parent + [b + x])
  {
    assert (parent + [b])[|parent|] == b;
    assert (parent + [b + x])[|parent|] == b + x;
    assert |b + x| > |b|;
  }

  /** An instance: from `/p`, the path `../p-evil` passes as `/p-evil`. */
  lemma PrefixSiblingExample(cwd: string)
    requires IsAbsolute(cwd)
    ensures ValidatePath(cwd, "/p", "../p-evil") == Ok("/p-evil")
  {
    assert AbsoluteOf([] + ["p"]) == "/p";
    assert AbsoluteOf([] + ["p" + "-evil"]) == "/p-evil";
    assert "../" + "p" + "-evil" == "../p-evil";
    SiblingWithCommonPrefixAccepted(cwd, [], "p", "-evil");
  }

  // ---------------------------------------------------------------------
  // sanitizeComponentName
  // ---------------------------------------------------------------------

  /** The characters `[a-zA-Z0-9._-]` kept by the sanitiser. */
  predicate SafeChar(c: char) {
    ('a' <= c <= 'z') || ('A' <= c <= 'Z') || ('0' <= c <= '9') || c == '.' || c == '_' || c == '-'
  }

  /** `s.replace(/[^a-zA-Z0-9._-]/g, '')`: the safe characters of `s`, in
      order. */
  function KeepSafe(s: string): (r: string)
    ensures |r| <= |s|
    ensures forall i :: 0 <= i < |r| ==> SafeChar(r[i])
    ensures forall c :: c in r <==> c in s && SafeChar(c)
    decreases |s|
  {
    if |s| == 0 then ""
    else
      var rest := KeepSafe(s[1..]);
      assert forall c :: c in s <==> c == s[0] || c in s[1..];
      if SafeChar(s[0]) then [s[0]] + rest else rest
  }

  /** Filtering distributes over concatenation: order is kept and nothing is
      moved across the join. */
  lemma {:induction false} KeepSafeAppend(a: string, b: string)
    ensures KeepSafe(a + b) == KeepSafe(a) + KeepSafe(b)
    decreases |a|
  {
    if |a| > 0 {
      assert (a + b)[0] == a[0];
      assert (a + b)[1..] == a[1..] + b;
      KeepSafeAppend(a[1..], b);
    } else {
      assert a + b == b;
    }
  }

  /** A string of safe characters passes through unchanged. */
  lemma {:induction false} KeepSafeOfSafe(s: string)
    requires forall i :: 0 <= i < |s| ==> SafeChar(s[i])
    ensures KeepSafe(s) == s
    decreases |s|
  {
    if |s| > 0 {
      KeepSafeOfSafe(s[1..]);
    }
  }

  /** `/^\.+$/.test(s)`. */
  predicate OnlyDots(s: string) {
    |s| > 0 && forall i :: 0 <= i < |s| ==> s[i] == '.'
  }

  /** A safe character that can carry a name: anything but a dot. */
  predicate NameBearing(c: char) {
    SafeChar(c) && c != '.'
  }

  /** `sanitizeComponentName(name)` of path-validator.js; `None` stands for
      a value that is not a string. A name is accepted exactly when it holds
      a letter, digit, `_` or `-`; the result is a single proper path
      segment. */
  function SanitizeComponentName(name: Option<string>): (r: Result<string, string>)
    ensures name.None? || name == Some("") ==> r == Err(NameRequiredError)
    ensures r.Ok? <==> name.Some? && exists c :: c in name.value && NameBearing(c)
    ensures r.Ok? ==> r.value == KeepSafe(name.value)
    ensures r.Ok? ==> ProperSegment(r.value) && forall i :: 0 <= i < |r.value| ==> SafeChar(r.value[i])
    ensures r.Err? && name.Some? && name.value != "" ==>
              r.error == (if exists c :: c in name.value && SafeChar(c) then OnlyDotsError else NoValidCharactersError)
  {
    if name.None? || name.value == "" then Err(NameRequiredError)
    else
      var sanitized := KeepSafe(name.value);
      if |sanitized| == 0 then
        assert forall c :: c in name.value ==> !SafeChar(c) by {
          assert forall c :: c in name.value && SafeChar(c) ==> c in sanitized;
        }
        Err(NoValidCharactersError)
      else if OnlyDots(sanitized) then
        assert sanitized[0] in sanitized;
        assert forall c :: c in name.value && NameBearing(c) ==> c in sanitized;
        Err(OnlyDotsError)
      else
        var k :| 0 <= k < |sanitized| && sanitized[k] != '.';
        assert sanitized[k] in sanitized;
        assert sanitized != "." && sanitized != "..";
        Ok(sanitized)
  }

  /** Sanitising an accepted name again changes nothing. */
  lemma SanitizeComponentNameIdempotent(name: Option<string>)
    requires SanitizeComponentName(name).Ok?
    ensures SanitizeComponentName(Some(SanitizeComponentName(name).value)) == SanitizeComponentName(name)
  {
    var s := SanitizeComponentName(name).value;
    KeepSafeOfSafe(s);
  }

  /** An accepted name, used as a path below any base, is a child of it. */
  lemma SanitizedNameStaysInside(cwd: string, basePath: string, name: Option<string>)
    requires IsAbsolute(cwd) && SanitizeComponentName(name).Ok?
    ensures var n := SanitizeComponentName(name).value;
            ValidatePath(cwd, basePath, n) == Ok(Join(Resolve(cwd, [basePath]), n))
  {
    ChildAccepted(cwd, basePath, SanitizeComponentName(name).value);
  }

  // ---------------------------------------------------------------------
  // validateOutputDirectory
  // ---------------------------------------------------------------------

  /** `validateOutputDirectory(outputDir)`: the directory must resolve under
      the working directory. */
  function ValidateOutputDirectory(cwd: string, outputDir: string): (r: Result<string, string>)
    requires IsAbsolute(cwd)
    ensures r.Ok? ==> Canonical(r.value) && StartsWith(r.value, Resolve(cwd, [cwd]))
    ensures r.Err? ==> r.error == TraversalError
  {
    ValidatePath(cwd, cwd, outputDir)
  }

  /** From a canonical working directory, `.` is accepted as the working
      directory itself and `..` is rejected unless it is the root. */
  lemma OutputDirectoryBounds(cwd: string)
    requires Canonical(cwd)
    ensures ValidateOutputDirectory(cwd, ".") == Ok(cwd)
    ensures cwd != "/" ==> ValidateOutputDirectory(cwd, "..") == Err(TraversalError)
  {
    ResolveCanonical(cwd, cwd);
    CurrentDirectoryAccepted(cwd, cwd);
    if cwd != "/" {
      ParentRejected(cwd, cwd);
    }
  }
}
