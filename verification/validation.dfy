/** What the two component validators share: the report they build and the
    bracket-count test (`validateSyntax` and `validateTypeScriptSyntax`,
    which are the same code). */
module Validation {
  import opened Strings
  import opened Scan

  /** The errors and warnings found for one file, in the order the checks
      added them. Each validator names its issues with a datatype whose
      `Message` is the text the source pushes. */
  datatype Report<I> = Report(errors: seq<I>, warnings: seq<I>)

  /** The text of the single error reported when a read throws. */
  function ReadFailure(message: string): string {
    "Failed to read file: " + message
  }

  /** The number of `c` in `s`: the length of `s.match(/c/g) || []`. */
  function Count(s: string, c: char): (n: nat)
    ensures n <= |s|
  {
    if |s| == 0 then 0 else (if s[0] == c then 1 else 0) + Count(s[1..], c)
  }

  /** `Count` is the multiplicity of the character in the string. */
  lemma {:induction false} CountIsMultiplicity(s: string, c: char)
    ensures Count(s, c) == multiset(s)[c]
  {
    if |s| > 0 {
      CountIsMultiplicity(s[1..], c);
      assert s == [s[0]] + s[1..];
    }
  }

  lemma {:induction false} CountAppend(a: string, b: string, c: char)
    ensures Count(a + b, c) == Count(a, c) + Count(b, c)
  {
    if |a| == 0 {
      assert a + b == b;
    } else {
      assert (a + b)[1..] == a[1..] + b;
      CountAppend(a[1..], b, c);
    }
  }

  /** As many `{` as `}`, `(` as `)` and `[` as `]`, each pair counted on
      its own. */
  predicate Balanced(s: string) {
    && Count(s, '{') == Count(s, '}')
    && Count(s, '(') == Count(s, ')')
    && Count(s, '[') == Count(s, ']')
  }

  /** `validateSyntax(content)`: one pass counting the six characters. */
  method ValidateSyntax(content: string) returns (ok: bool)
    ensures ok <==> Balanced(content)
  {
    var openBraces, closeBraces, openParens, closeParens, openBrackets, closeBrackets := 0, 0, 0, 0, 0, 0;
    var i := 0;
    while i < |content|
      invariant 0 <= i <= |content|
      invariant openBraces == Count(content[..i], '{') && closeBraces == Count(content[..i], '}')
      invariant openParens == Count(content[..i], '(') && closeParens == Count(content[..i], ')')
      invariant openBrackets == Count(content[..i], '[') && closeBrackets == Count(content[..i], ']')
    {
      var c := content[i];
      assert content[..i + 1] == content[..i] + [c];
      CountAppend(content[..i], [c], '{');
      CountAppend(content[..i], [c], '}');
      CountAppend(content[..i], [c], '(');
      CountAppend(content[..i], [c], ')');
      CountAppend(content[..i], [c], '[');
      CountAppend(content[..i], [c], ']');
      if c == '{' {
        openBraces := openBraces + 1;
      } else if c == '}' {
        closeBraces := closeBraces + 1;
      } else if c == '(' {
        openParens := openParens + 1;
      } else if c == ')' {
        closeParens := closeParens + 1;
      } else if c == '[' {
        openBrackets := openBrackets + 1;
      } else if c == ']' {
        closeBrackets := closeBrackets + 1;
      }
      i := i + 1;
    }
    assert content[..i] == content;
    ok := openBraces == closeBraces && openParens == closeParens && openBrackets == closeBrackets;
  }

  /** Two balanced texts joined are balanced. */
  lemma BalancedAppend(a: string, b: string)
    requires Balanced(a) && Balanced(b)
    ensures Balanced(a + b)
  {
    CountAppend(a, b, '{');
    CountAppend(a, b, '}');
    CountAppend(a, b, '(');
    CountAppend(a, b, ')');
    CountAppend(a, b, '[');
    CountAppend(a, b, ']');
  }

  /** Order is ignored: any rearrangement of a text is balanced exactly
      when the text is. */
  lemma BalancedIgnoresOrder(a: string, b: string)
    requires multiset(a) == multiset(b)
    ensures Balanced(a) <==> Balanced(b)
  {
    CountIsMultiplicity(a, '{');
    CountIsMultiplicity(a, '}');
    CountIsMultiplicity(a, '(');
    CountIsMultiplicity(a, ')');
    CountIsMultiplicity(a, '[');
    CountIsMultiplicity(a, ']');
    CountIsMultiplicity(b, '{');
    CountIsMultiplicity(b, '}');
    CountIsMultiplicity(b, '(');
    CountIsMultiplicity(b, ')');
    CountIsMultiplicity(b, '[');
    CountIsMultiplicity(b, ']');
  }

  /** A closing parenthesis before the opening one passes. */
  lemma ClosedBeforeOpenPasses()
    ensures Balanced(")(")
  {
    assert ")(" == ")" + "(";
    CountAppend(")", "(", '(');
    CountAppend(")", "(", ')');
  }

  /** The issues of `order` whose check fired, in check order: each
      check pushes its issue when its flag is set. */
  function Picks<T>(order: seq<T>, flags: seq<bool>): (r: seq<T>)
    requires |order| == |flags|
    ensures |r| <= |order|
    ensures forall k :: 0 <= k < |order| && flags[k] ==> order[k] in r
    ensures forall x :: x in r ==> exists k :: 0 <= k < |order| && flags[k] && order[k] == x
  {
    if |order| == 0 then []
    else
      var rest := Picks(order[1..], flags[1..]);
      assert forall k :: 1 <= k < |order| ==> order[1..][k - 1] == order[k] && flags[1..][k - 1] == flags[k];
      (if flags[0] then [order[0]] else []) + rest
  }

  /** No element twice. */
  predicate Distinct<T(==)>(xs: seq<T>) {
    forall i, j :: 0 <= i < j < |xs| ==> xs[i] != xs[j]
  }

  /** With distinct issues, an issue is reported exactly when its check
      fires. */
  lemma PicksHas<T>(order: seq<T>, flags: seq<bool>, k: nat)
    requires |order| == |flags| && Distinct(order) && k < |order|
    ensures order[k] in Picks(order, flags) <==> flags[k]
  {
  }

  /** Only issues of `order` are picked. */
  lemma PicksWithin<T>(order: seq<T>, flags: seq<bool>, x: T)
    requires |order| == |flags| && x !in order
    ensures x !in Picks(order, flags)
  {
  }

  /** The picked issues keep their check order. */
  lemma {:induction false} PicksOrdered<T>(order: seq<T>, flags: seq<bool>)
    requires |order| == |flags|
    ensures Subsequence(Picks(order, flags), order)
    decreases |order|
  {
    if |order| > 0 {
      PicksOrdered(order[1..], flags[1..]);
      var rest := Picks(order[1..], flags[1..]);
      if flags[0] {
        assert ([order[0]] + rest)[1..] == rest;
      } else {
        assert [] + rest == rest;
        SubsequenceSkip(rest, order[0], order[1..]);
        assert [order[0]] + order[1..] == order;
      }
    }
  }

  /** Dropping a front element of the longer list keeps a subsequence. */
  lemma {:induction false} SubsequenceSkip<T>(a: seq<T>, x: T, b: seq<T>)
    requires Subsequence(a, b)
    ensures Subsequence(a, [x] + b)
    decreases |b|
  {
    if |a| > 0 && a[0] == x {
      assert ([x] + b)[1..] == b;
      if |b| > 0 && a[0] == b[0] {
        SubsequenceSkip(a[1..], b[0], b[1..]);
        assert [b[0]] + b[1..] == b;
      } else if |b| > 0 {
        SubsequenceDrop(a, b[0], b[1..]);
        SubsequenceSkip(a[1..], b[0], b[1..]);
        assert [b[0]] + b[1..] == b;
      }
    } else if |a| > 0 {
      assert ([x] + b)[1..] == b;
    }
  }

  /** The first element of a subsequence can be dropped. */
  lemma {:induction false} SubsequenceDrop<T>(a: seq<T>, y: T, b: seq<T>)
    requires |a| > 0 && Subsequence(a, [y] + b)
    ensures Subsequence(a[1..], b)
    decreases |b|
  {
    assert ([y] + b)[1..] == b;
    if a[0] != y {
      assert |b| > 0;
      assert [b[0]] + b[1..] == b;
      SubsequenceDrop(a, b[0], b[1..]);
      SubsequenceSkip(a[1..], b[0], b[1..]);
    }
  }

  /** Subsequences of two lists join into a subsequence of the joined
      lists. */
  lemma {:induction false} SubsequenceAppend<T>(a: seq<T>, b: seq<T>, x: seq<T>, y: seq<T>)
    requires Subsequence(a, x) && Subsequence(b, y)
    ensures Subsequence(a + b, x + y)
    decreases |x|
  {
    if |x| == 0 {
      assert |a| == 0 && a + b == b && x + y == y;
    } else if |a| > 0 && a[0] == x[0] {
      assert (a + b)[0] == x[0] && (x + y)[0] == x[0];
      assert (a + b)[1..] == a[1..] + b && (x + y)[1..] == x[1..] + y;
      SubsequenceAppend(a[1..], b, x[1..], y);
    } else {
      assert (x + y)[1..] == x[1..] + y;
      SubsequenceAppend(a, b, x[1..], y);
      SubsequenceSkip(a + b, x[0], x[1..] + y);
      assert [x[0]] + (x[1..] + y) == x + y;
    }
  }
}
