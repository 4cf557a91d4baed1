// The stack and deque exercises of lab02: bracket validation and the
// palindrome check.

module StackTasks {
  import opened Wrappers

  // ---------------------------------------------------------------------
  // Bracket validation
  // ---------------------------------------------------------------------

  predicate IsOpener(c: char) { c == '(' || c == '{' || c == '[' }

  predicate IsCloser(c: char) { c == ')' || c == '}' || c == ']' }

  /** The opener that `bracket_pairs` maps a closer to. */
  function OpenerOf(c: char): char
    requires IsCloser(c)
  {
    if c == ')' then '(' else if c == '}' then '{' else '['
  }

  predicate IsPair(o: char, c: char) { IsCloser(c) && OpenerOf(c) == o }

  /** The bracket characters of a string, in order; everything else is dropped. */
  function Brackets(s: string): (r: string)
    ensures forall k :: 0 <= k < |r| ==> IsOpener(r[k]) || IsCloser(r[k])
  {
    if s == [] then []
    else if IsOpener(s[0]) || IsCloser(s[0]) then [s[0]] + Brackets(s[1..])
    else Brackets(s[1..])
  }

  /**
   * Properly nested and balanced: empty, or an opener whose matching closer
   * encloses a well-nested string and is followed by one.
   */
  ghost predicate WellNested(s: string)
    decreases |s|, 1
  {
    s == [] || exists k :: SplitAt(s, k)
  }

  /** `s[0]` is closed by `s[k]`, with well-nested strings inside and after. */
  ghost predicate SplitAt(s: string, k: int)
    decreases |s|, 0
  {
    1 <= k < |s| && IsPair(s[0], s[k]) && WellNested(s[1..k]) && WellNested(s[k + 1..])
  }

  /**
   * The stack machine the loop runs: openers are pushed, a closer pops a
   * matching top, anything else is skipped. None is the early `return False`.
   */
  function Run(s: string, stack: string): Option<string>
  {
    if s == [] then Some(stack)
    else if IsOpener(s[0]) then Run(s[1..], stack + [s[0]])
    else if IsCloser(s[0]) then
      if stack == [] || stack[|stack| - 1] != OpenerOf(s[0]) then None
      else Run(s[1..], stack[..|stack| - 1])
    else Run(s[1..], stack)
  }

  /** `validate_bracket_sequence`. */
  method ValidateBracketSequence(expression: string) returns (ok: bool)
    ensures ok <==> WellNested(Brackets(expression))
  {
    var stack: string := [];
    var i := 0;
    while i < |expression|
      invariant 0 <= i <= |expression|
      invariant Run(expression, []) == Run(expression[i..], stack)
    {
      var c := expression[i];
      assert expression[i..][0] == c && expression[i..][1..] == expression[i + 1..];
      if IsOpener(c) {
        stack := stack + [c];
      } else if IsCloser(c) {
        if stack == [] || stack[|stack| - 1] != OpenerOf(c) {
          RunDecides(expression);
          return false;
        }
        stack := stack[..|stack| - 1];
      }
      i := i + 1;
    }
    ok := stack == [];
    RunDecides(expression);
  }

  /** The stack machine accepts with an empty stack exactly the well-nested bracket strings. */
  lemma RunDecides(s: string)
    ensures Run(s, []) == Some([]) <==> WellNested(Brackets(s))
  {
    RunIgnoresOthers(s, []);
    if WellNested(Brackets(s)) {
      NestedRunsThrough(Brackets(s), [], []);
      assert Brackets(s) + [] == Brackets(s);
    }
    if Run(Brackets(s), []) == Some([]) {
      RunSound(Brackets(s), []);
      assert [] + Brackets(s) == Brackets(s);
    }
  }

  /** Characters other than brackets do not affect the machine. */
  lemma {:induction false} RunIgnoresOthers(s: string, stack: string)
    ensures Run(s, stack) == Run(Brackets(s), stack)
  {
    if s != [] {
      if IsOpener(s[0]) {
        RunIgnoresOthers(s[1..], stack + [s[0]]);
        assert ([s[0]] + Brackets(s[1..]))[1..] == Brackets(s[1..]);
      } else if IsCloser(s[0]) {
        if !(stack == [] || stack[|stack| - 1] != OpenerOf(s[0])) {
          RunIgnoresOthers(s[1..], stack[..|stack| - 1]);
        }
        assert ([s[0]] + Brackets(s[1..]))[1..] == Brackets(s[1..]);
      } else {
        RunIgnoresOthers(s[1..], stack);
      }
    }
  }

  lemma RunPush(c: char, s: string, stack: string)
    requires IsOpener(c)
    ensures Run([c] + s, stack) == Run(s, stack + [c])
  {
    assert ([c] + s)[1..] == s;
  }

  lemma RunPop(o: char, c: char, s: string, stack: string)
    requires IsPair(o, c)
    ensures Run([c] + s, stack + [o]) == Run(s, stack)
  {
    assert ([c] + s)[1..] == s;
    assert (stack + [o])[..|stack|] == stack;
  }

  /** A well-nested string runs through the machine leaving the stack as it found it. */
  lemma {:induction false} NestedRunsThrough(u: string, rest: string, stack: string)
    requires WellNested(u)
    ensures Run(u + rest, stack) == Run(rest, stack)
    decreases |u|
  {
    if u != [] {
      var k :| SplitAt(u, k);
      var inner, tail := u[1..k], u[k + 1..];
      var after := [u[k]] + (tail + rest);
      assert u + rest == [u[0]] + (inner + after);
      RunPush(u[0], inner + after, stack);
      NestedRunsThrough(inner, after, stack + [u[0]]);
      RunPop(u[0], u[k], tail + rest, stack);
      NestedRunsThrough(tail, rest, stack);
    } else {
      assert u + rest == rest;
    }
  }

  /** A bracket string that empties the stack, read after the openers on the stack, is well nested. */
  lemma {:induction false} RunSound(w: string, stack: string)
    requires forall k :: 0 <= k < |stack| ==> IsOpener(stack[k])
    requires forall k :: 0 <= k < |w| ==> IsOpener(w[k]) || IsCloser(w[k])
    requires Run(w, stack) == Some([])
    ensures WellNested(stack + w)
  {
    if w == [] {
      assert stack == [];
    } else if IsOpener(w[0]) {
      RunSound(w[1..], stack + [w[0]]);
      assert stack + [w[0]] + w[1..] == stack + w;
    } else {
      var top := stack[..|stack| - 1];
      RunSound(w[1..], top);
      InsertPair(top, w[1..], stack[|stack| - 1], w[0]);
      assert top + [stack[|stack| - 1], w[0]] + w[1..] == stack + w;
    }
  }

  /** Inserting a matched pair anywhere into a well-nested string keeps it well nested. */
  lemma {:induction false} InsertPair(x: string, y: string, o: char, c: char)
    requires IsPair(o, c)
    requires WellNested(x + y)
    ensures WellNested(x + [o, c] + y)
    decreases |x + y|
  {
    var t := x + [o, c] + y;
    if x == [] {
      assert t[1..1] == [] && t[2..] == y && x + y == y;
      assert WellNested(t[1..1]);
      assert SplitAt(t, 1);
    } else {
      var s := x + y;
      var k :| SplitAt(s, k);
      if k < |x| {
        assert s[k + 1..] == x[k + 1..] + y;
        InsertPair(x[k + 1..], y, o, c);
        assert t[1..k] == s[1..k] && t[k + 1..] == x[k + 1..] + [o, c] + y;
        assert t[0] == s[0] && t[k] == s[k];
        assert SplitAt(t, k);
      } else {
        assert s[1..k] == x[1..] + y[..k - |x|];
        InsertPair(x[1..], y[..k - |x|], o, c);
        assert t[1..k + 2] == x[1..] + [o, c] + y[..k - |x|];
        assert t[k + 3..] == s[k + 1..];
        assert t[0] == s[0] && t[k + 2] == s[k];
        assert SplitAt(t, k + 2);
      }
    }
  }

  // ---------------------------------------------------------------------
  // Palindrome check
  // ---------------------------------------------------------------------

  /** The characters Python's `str.split()` treats as whitespace. */
  predicate IsSpace(c: char)
  {
    c == ' ' || ('\t' <= c <= '\r') || ('\U{1c}' <= c <= '\U{1f}') || c == '\U{85}' || c == '\U{a0}'
    || c == '\U{1680}' || ('\U{2000}' <= c <= '\U{200a}') || c == '\U{2028}' || c == '\U{2029}'
    || c == '\U{202f}' || c == '\U{205f}' || c == '\U{3000}'
  }

  /** `''.join(s.split())`: the string with every whitespace character removed. */
  function RemoveSpaces(s: string): (r: string)
    ensures forall k :: 0 <= k < |r| ==> !IsSpace(r[k])
    ensures |r| <= |s|
  {
    if s == [] then []
    else if IsSpace(s[0]) then RemoveSpaces(s[1..])
    else [s[0]] + RemoveSpaces(s[1..])
  }

  function Reverse(s: string): (r: string)
    ensures |r| == |s|
    ensures forall k :: 0 <= k < |s| ==> r[k] == s[|s| - 1 - k]
  {
    if s == [] then [] else Reverse(s[1..]) + [s[0]]
  }

  /**
   * `check_palindrome_sequence`, with `str.lower` passed in as `lower`: the
   * lower-cased text without whitespace reads the same both ways.
   */
  method CheckPalindromeSequence(text: string, lower: string -> string) returns (ok: bool)
    ensures ok <==> RemoveSpaces(lower(text)) == Reverse(RemoveSpaces(lower(text)))
  {
    var processed := RemoveSpaces(lower(text));
    var deque := processed;
    ghost var i := 0;
    while |deque| > 1
      invariant 0 <= i <= |processed| - i
      invariant deque == processed[i..|processed| - i]
      invariant MirroredUpTo(processed, i)
    {
      var firstChar := deque[0];
      var lastChar := deque[|deque| - 1];
      MirrorStep(processed, i, deque);
      deque := deque[1..|deque| - 1];
      if firstChar != lastChar {
        PalindromeIsMirrored(processed);
        return false;
      }
      i := i + 1;
    }
    MirroredMiddle(processed, i);
    PalindromeIsMirrored(processed);
    ok := true;
  }

  /** The first `i` characters match their mirror images. */
  ghost predicate MirroredUpTo(s: string, i: int)
    requires 0 <= i <= |s|
  {
    forall k :: 0 <= k < i ==> s[k] == s[|s| - 1 - k]
  }

  /**
   * One round of the deque loop: dropping both ends leaves the next inner
   * slice; equal ends extend the matched prefix, different ends rule out
   * matching everywhere.
   */
  lemma MirrorStep(s: string, i: int, deque: string)
    requires 0 <= i <= |s| - i
    requires deque == s[i..|s| - i] && |deque| > 1
    requires MirroredUpTo(s, i)
    ensures deque[1..|deque| - 1] == s[i + 1..|s| - (i + 1)]
    ensures deque[0] == deque[|deque| - 1] ==> MirroredUpTo(s, i + 1)
    ensures deque[0] != deque[|deque| - 1] ==> !MirroredUpTo(s, |s|)
  {
    assert deque[0] == s[i] && deque[|deque| - 1] == s[|s| - 1 - i];
    var inner := deque[1..|deque| - 1];
    assert |inner| == |s| - (i + 1) - (i + 1);
    assert forall k :: 0 <= k < |inner| ==> inner[k] == s[i + 1 + k];
    assert inner == s[i + 1..|s| - (i + 1)];
    if deque[0] != deque[|deque| - 1] {
      assert s[i] != s[|s| - 1 - i];
    }
  }

  /** A string equals its reverse exactly when every character matches its mirror image. */
  lemma PalindromeIsMirrored(s: string)
    ensures s == Reverse(s) <==> MirroredUpTo(s, |s|)
  {
    if MirroredUpTo(s, |s|) {
      assert forall k :: 0 <= k < |s| ==> Reverse(s)[k] == s[k];
    }
  }

  /** Matching up to the middle is matching everywhere. */
  lemma MirroredMiddle(s: string, i: int)
    requires 0 <= i <= |s| - i && |s| - 2 * i <= 1
    requires MirroredUpTo(s, i)
    ensures MirroredUpTo(s, |s|)
  {
    forall k | 0 <= k < |s|
      ensures s[k] == s[|s| - 1 - k]
    {
      if k >= |s| - i {
        assert s[|s| - 1 - k] == s[|s| - 1 - (|s| - 1 - k)];
      }
    }
  }
}
