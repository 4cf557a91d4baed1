// Knuth-Morris-Pratt and naive substring search, and match highlighting (lab11).

module KmpSearch {
  import opened PrefixFunction

  /** `pattern` occurs in `text` at index `i` (Python's `text[i:i + m] == pattern`). */
  predicate MatchesAt(text: string, pattern: string, i: nat)
  {
    i + |pattern| <= |text| && text[i..i + |pattern|] == pattern
  }

  /** The match positions below `k`, in increasing order. */
  function MatchesBelow(text: string, pattern: string, k: nat): (r: seq<nat>)
    ensures forall x: nat :: x in r <==> x < k && MatchesAt(text, pattern, x)
    ensures forall a :: 0 <= a < |r| ==> r[a] < k
    ensures forall a, b :: 0 <= a < b < |r| ==> r[a] < r[b]
  {
    if k == 0 then []
    else MatchesBelow(text, pattern, k - 1) + (if MatchesAt(text, pattern, k - 1) then [k - 1] else [])
  }

  /** Every position where `pattern` occurs in `text`, overlaps included, in increasing order. */
  function Occurrences(text: string, pattern: string): (r: seq<nat>)
    ensures forall x: nat :: x in r <==> MatchesAt(text, pattern, x)
    ensures forall a :: 0 <= a < |r| ==> MatchesAt(text, pattern, r[a])
    ensures forall a, b :: 0 <= a < b < |r| ==> r[a] < r[b]
  {
    MatchesBelow(text, pattern, |text| + 1)
  }

  /** No match starts beyond |text| - |pattern|, so the positions below such a `k` are all of them. */
  lemma {:induction false} MatchesTail(text: string, pattern: string, k: nat)
    requires |text| < k + |pattern| && k <= |text| + 1
    ensures MatchesBelow(text, pattern, k) == Occurrences(text, pattern)
    decreases |text| + 1 - k
  {
    if k < |text| + 1 {
      MatchesTail(text, pattern, k + 1);
      assert !MatchesAt(text, pattern, k);
    }
  }

  /** The empty pattern occurs at every index 0, 1, ..., |text|. */
  lemma EmptyPattern(text: string)
    ensures Occurrences(text, []) == seq(|text| + 1, i => i)
  {
    EmptyBelow(text, |text| + 1);
  }

  lemma {:induction false} EmptyBelow(text: string, k: nat)
    requires k <= |text| + 1
    ensures MatchesBelow(text, [], k) == seq(k, i => i)
    decreases k
  {
    if k > 0 {
      EmptyBelow(text, k - 1);
      assert MatchesAt(text, [], k - 1);
      assert seq(k, i => i) == seq(k - 1, i => i) + [k - 1];
    }
  }

  /** A pattern longer than the text occurs nowhere. */
  lemma LongPattern(text: string, pattern: string)
    requires |pattern| > |text|
    ensures Occurrences(text, pattern) == []
  {
    MatchesTail(text, pattern, 0);
  }

  /** The inner loop of `naive_search`: compare from the left and stop at the first difference. */
  method MatchHere(text: string, pattern: string, i: nat) returns (found: bool)
    requires i + |pattern| <= |text|
    ensures found <==> MatchesAt(text, pattern, i)
  {
    found := true;
    var j := 0;
    while j < |pattern|
      invariant 0 <= j <= |pattern|
      invariant forall t :: 0 <= t < j ==> text[i + t] == pattern[t]
    {
      if text[i + j] != pattern[j] {
        found := false;
        assert text[i..i + |pattern|][j] != pattern[j];
        break;
      }
      j := j + 1;
    }
    if found {
      assert text[i..i + |pattern|] == pattern;
    }
  }

  /**
   * `naive_search`: tries every start 0 .. n - m, comparing character by
   * character and stopping at the first difference.
   */
  method NaiveSearch(text: string, pattern: string) returns (occurrences: seq<nat>)
    ensures occurrences == Occurrences(text, pattern)
  {
    if |pattern| == 0 {
      EmptyPattern(text);
      return seq(|text| + 1, i => i);
    }
    var n, m := |text|, |pattern|;
    occurrences := [];
    var i := 0;
    while i < n - m + 1
      invariant i <= n + 1 && (i == 0 || i <= n - m + 1)
      invariant occurrences == MatchesBelow(text, pattern, i)
    {
      var found := MatchHere(text, pattern, i);
      if found {
        occurrences := occurrences + [i];
      }
      i := i + 1;
    }
    MatchesTail(text, pattern, i);
  }

  /** The last `k` characters of text[0..e) are the first `k` of the pattern. */
  ghost predicate EndsWith(text: string, pattern: string, e: nat, k: nat)
  {
    k <= e <= |text| && k <= |pattern| && text[e - k..e] == pattern[..k]
  }

  /** `j` is the longest prefix of the pattern, at most `top` long, that ends text[0..e). */
  ghost predicate Longest(text: string, pattern: string, e: nat, j: nat, top: nat)
  {
    j <= top && EndsWith(text, pattern, e, j)
    && forall k: nat :: j < k <= top ==> !EndsWith(text, pattern, e, k)
  }

  /** Below a matched prefix `j`, the prefixes that end the text are the borders of pattern[0..j). */
  lemma FallBack(text: string, pattern: string, e: nat, j: nat, k: nat)
    requires 0 < j && EndsWith(text, pattern, e, j) && k < j
    ensures EndsWith(text, pattern, e, k) <==> Border(pattern[..j], k)
  {
    var w := pattern[..j];
    assert text[e - k..e] == text[e - j..e][j - k..];
    assert w[j - k..] == text[e - k..e];
    assert w[..k] == pattern[..k];
  }

  /** Reading text[e] extends a matched prefix `k` exactly when the next pattern character agrees. */
  lemma EndsWithStep(text: string, pattern: string, e: nat, k: nat)
    requires e < |text| && k < |pattern|
    ensures EndsWith(text, pattern, e + 1, k + 1) <==> EndsWith(text, pattern, e, k) && pattern[k] == text[e]
  {
    if k <= e {
      assert text[e - k..e + 1] == text[e - k..e] + [text[e]];
      assert pattern[..k + 1] == pattern[..k] + [pattern[k]];
      if EndsWith(text, pattern, e + 1, k + 1) {
        assert text[e - k..e] == text[e - k..e + 1][..k];
        assert pattern[..k] == pattern[..k + 1][..k];
      }
    }
  }

  /** After the fall-backs stop, one comparison gives the longest prefix ending text[0..e]. */
  lemma Extend(text: string, pattern: string, e: nat, j: nat)
    requires e < |text| && j < |pattern| && EndsWith(text, pattern, e, j)
    requires forall k: nat :: j < k < |pattern| && EndsWith(text, pattern, e, k) ==> pattern[k] != text[e]
    requires j == 0 || text[e] == pattern[j]
    ensures Longest(text, pattern, e + 1, if text[e] == pattern[j] then j + 1 else 0, |pattern|)
  {
    var r := if text[e] == pattern[j] then j + 1 else 0;
    if r > 0 {
      EndsWithStep(text, pattern, e, j);
    }
    forall k: nat {:trigger EndsWith(text, pattern, e + 1, k)} | r < k <= |pattern|
      ensures !EndsWith(text, pattern, e + 1, k)
    {
      EndsWithStep(text, pattern, e, k - 1);
    }
  }

  /**
   * The inner `while` of `kmp_search` plus the comparison after it: given the
   * longest prefix shorter than m that ends text[0..i), fall back along
   * pi[j - 1] and extend by text[i].
   */
  method Advance(text: string, pattern: string, pi: seq<nat>, i: nat, j: nat) returns (j': nat)
    requires pi == PrefixFunctionOf(pattern) && i < |text| && 0 < |pattern|
    requires Longest(text, pattern, i, j, |pattern| - 1)
    ensures Longest(text, pattern, i + 1, j', |pattern|)
  {
    j' := j;
    while j' > 0 && text[i] != pattern[j']
      invariant j' < |pattern| && EndsWith(text, pattern, i, j')
      invariant forall k: nat :: j' < k < |pattern| && EndsWith(text, pattern, i, k) ==> pattern[k] != text[i]
      decreases j'
    {
      forall k: nat | k < j'
        ensures EndsWith(text, pattern, i, k) <==> Border(pattern[..j'], k)
      {
        FallBack(text, pattern, i, j', k);
      }
      assert pattern[..j' - 1 + 1] == pattern[..j'];
      j' := pi[j' - 1];
    }
    Extend(text, pattern, i, j');
    if text[i] == pattern[j'] {
      j' := j' + 1;
    }
  }

  /** After a full match at text[0..e), continuing from pi[m - 1] keeps the longest shorter prefix. */
  lemma Restart(text: string, pattern: string, e: nat)
    requires 0 < |pattern| && EndsWith(text, pattern, e, |pattern|)
    ensures Longest(text, pattern, e, PrefixFunctionOf(pattern)[|pattern| - 1], |pattern| - 1)
  {
    var m := |pattern|;
    assert pattern[..m - 1 + 1] == pattern[..m];
    var b := LongestBorder(pattern[..m]);
    forall k: nat | k < m
      ensures EndsWith(text, pattern, e, k) <==> Border(pattern[..m], k)
    {
      FallBack(text, pattern, e, m, k);
    }
  }

  /** A match at e - m is a full-length prefix ending text[0..e). */
  lemma MatchEnds(text: string, pattern: string, e: nat)
    requires |pattern| <= e <= |text|
    ensures MatchesAt(text, pattern, e - |pattern|) <==> EndsWith(text, pattern, e, |pattern|)
  {
    assert pattern[..|pattern|] == pattern;
  }

  /** How many start positions are settled once text[0..e) has been read. */
  function Done(e: nat, m: nat): nat
  {
    if e < m then 0 else e - m + 1
  }

  /**
   * Loop invariant of `kmp_search` before reading text[i]: 0 <= j < m, the
   * longest prefix of the pattern shorter than m that ends text[0..i) has
   * length j, and every match ending by i has been recorded.
   */
  ghost predicate Scanned(text: string, pattern: string, i: nat, j: nat, occurrences: seq<nat>)
  {
    j < |pattern| && Longest(text, pattern, i, j, |pattern| - 1)
    && occurrences == MatchesBelow(text, pattern, Done(i, |pattern|))
  }

  /** One iteration of the `for` loop of `kmp_search`: read text[i], record a full match, restart. */
  method ReadChar(text: string, pattern: string, pi: seq<nat>, i: nat, j: nat, occurrences: seq<nat>)
    returns (j': nat, occurrences': seq<nat>)
    requires pi == PrefixFunctionOf(pattern) && i < |text| && 0 < |pattern|
    requires Scanned(text, pattern, i, j, occurrences)
    ensures Scanned(text, pattern, i + 1, j', occurrences')
  {
    var m := |pattern|;
    j' := Advance(text, pattern, pi, i, j);
    occurrences' := occurrences;
    if i + 1 >= m {
      MatchEnds(text, pattern, i + 1);
      assert Done(i + 1, m) == Done(i, m) + 1;
    }
    if j' == m {
      occurrences' := occurrences + [i - m + 1];
      Restart(text, pattern, i + 1);
      j' := pi[j' - 1];
    }
  }

  /**
   * `kmp_search`: all match positions in one left-to-right pass, keeping in `j`
   * the longest prefix of the pattern that ends the text read so far.
   */
  method KmpSearch(text: string, pattern: string) returns (occurrences: seq<nat>)
    ensures occurrences == Occurrences(text, pattern)
  {
    if |pattern| == 0 {
      EmptyPattern(text);
      return seq(|text| + 1, i => i);
    }
    var n, m := |text|, |pattern|;
    if m > n {
      LongPattern(text, pattern);
      return [];
    }
    var pi := ComputePrefixFunction(pattern);
    occurrences := [];
    var j: nat := 0;
    for i := 0 to n
      invariant Scanned(text, pattern, i, j, occurrences)
    {
      j, occurrences := ReadChar(text, pattern, pi, i, j, occurrences);
    }
    MatchesTail(text, pattern, Done(n, m));
  }

  /** One differing character rules a start position out. */
  lemma NoMatch(text: string, pattern: string, i: nat, x: nat)
    requires x < |pattern| && i + x < |text| && text[i + x] != pattern[x]
    ensures !MatchesAt(text, pattern, i)
  {
    if i + |pattern| <= |text| {
      assert text[i..i + |pattern|][x] != pattern[x];
    }
  }

  /** Without a match below `k` there is nothing to list. */
  lemma {:induction false} NoneBelow(text: string, pattern: string, k: nat)
    requires forall x: nat :: x < k ==> !MatchesAt(text, pattern, x)
    ensures MatchesBelow(text, pattern, k) == []
    decreases k
  {
    if k > 0 {
      NoneBelow(text, pattern, k - 1);
    }
  }

  /** The sample from the documentation of `kmp_search`. */
  lemma AbabdSample()
    ensures Occurrences("ababcabcabababd", "ababd") == [10]
  {
    var text, pattern := "ababcabcabababd", "ababd";
    AbabdNoEarlyMatch();
    assert MatchesAt(text, pattern, 10) by {
      assert text[10..15] == pattern;
    }
    assert MatchesBelow(text, pattern, 11) == [10];
    MatchesTail(text, pattern, 11);
  }

  lemma AbabdNoEarlyMatch()
    ensures MatchesBelow("ababcabcabababd", "ababd", 10) == []
  {
    var text, pattern := "ababcabcabababd", "ababd";
    forall x: nat | x < 10
      ensures !MatchesAt(text, pattern, x)
    {
      if x == 0 {
        NoMatch(text, pattern, 0, 4);
      } else if x == 1 {
        NoMatch(text, pattern, 1, 0);
      } else if x == 2 {
        NoMatch(text, pattern, 2, 2);
      } else if x == 3 {
        NoMatch(text, pattern, 3, 0);
      } else if x == 4 {
        NoMatch(text, pattern, 4, 0);
      } else if x == 5 {
        NoMatch(text, pattern, 5, 2);
      } else if x == 6 {
        NoMatch(text, pattern, 6, 0);
      } else if x == 7 {
        NoMatch(text, pattern, 7, 0);
      } else if x == 8 {
        NoMatch(text, pattern, 8, 4);
      } else {
        NoMatch(text, pattern, 9, 0);
      }
    }
    NoneBelow(text, pattern, 10);
  }

  /**
   * The correctness part of `compare_kmp_naive`: the two searches always
   * agree, so `correct` is always True.
   */
  method CompareKmpNaive(text: string, pattern: string)
    returns (kmpResult: seq<nat>, naiveResult: seq<nat>, correct: bool)
    ensures correct && kmpResult == naiveResult == Occurrences(text, pattern)
  {
    kmpResult := KmpSearch(text, pattern);
    naiveResult := NaiveSearch(text, pattern);
    correct := kmpResult == naiveResult;
  }

  /** The parts joined into one string, as `"".join(parts)`. */
  function Join(parts: seq<string>): string
  {
    if parts == [] then "" else Join(parts[..|parts| - 1]) + parts[|parts| - 1]
  }

  /** Every start leaves room for a match of length m. */
  predicate Fits(text: string, m: nat, starts: seq<nat>)
  {
    forall a :: 0 <= a < |starts| ==> starts[a] + m <= |text|
  }

  /** One highlighted match: the gap since `prev` when there is one, then the match in brackets. */
  function Marked(text: string, prev: nat, start: nat, end: nat): string
    requires prev <= |text| && start <= end <= |text|
  {
    (if start > prev then text[prev..start] else "") + ("[" + text[start..end] + "]")
  }

  /**
   * The text `kmp_search_with_highlight` builds from the match starts, once the
   * previous match ended at `prev`: each match marked in turn, then the rest of
   * the text after the last match.
   */
  function Highlighted(text: string, m: nat, starts: seq<nat>, prev: nat): string
    requires prev <= |text| && Fits(text, m, starts)
    decreases |starts|
  {
    if starts == [] then (if prev < |text| then text[prev..] else "")
    else Marked(text, prev, starts[0], starts[0] + m) + Highlighted(text, m, starts[1..], starts[0] + m)
  }

  /** The text with every bracket character removed. */
  function Unbracketed(s: string): string
  {
    if s == [] then ""
    else (if s[0] == '[' || s[0] == ']' then "" else [s[0]]) + Unbracketed(s[1..])
  }

  /** Removing brackets commutes with concatenation. */
  lemma {:induction false} UnbracketedAppend(a: string, b: string)
    ensures Unbracketed(a + b) == Unbracketed(a) + Unbracketed(b)
    decreases |a|
  {
    if a != [] {
      assert (a + b)[1..] == a[1..] + b;
      UnbracketedAppend(a[1..], b);
    } else {
      assert a + b == b;
    }
  }

  /** A text without bracket characters is left alone. */
  predicate Plain(s: string)
  {
    forall i :: 0 <= i < |s| ==> s[i] != '[' && s[i] != ']'
  }

  lemma {:induction false} UnbracketedPlain(s: string)
    requires Plain(s)
    ensures Unbracketed(s) == s
    decreases |s|
  {
    if s != [] {
      UnbracketedPlain(s[1..]);
      assert s == [s[0]] + s[1..];
    }
  }

  /** Matches that do not overlap each other nor the text before `prev`. */
  predicate Apart(m: nat, starts: seq<nat>, prev: nat)
  {
    (forall a :: 0 <= a < |starts| ==> prev <= starts[a])
    && forall a, b :: 0 <= a < b < |starts| ==> starts[a] + m <= starts[b]
  }

  lemma PlainSlice(text: string, a: nat, b: nat)
    requires Plain(text) && a <= b <= |text|
    ensures Plain(text[a..b])
  {
    assert forall i :: 0 <= i < b - a ==> text[a..b][i] == text[a + i];
  }

  /** A piece of plain text in brackets reads back as the piece and opens one bracket. */
  lemma Bracketed(piece: string)
    requires Plain(piece)
    ensures Unbracketed("[" + piece + "]") == piece
    ensures Opened("[" + piece + "]") == 1
  {
    UnbracketedAppend("[" + piece, "]");
    UnbracketedAppend("[", piece);
    UnbracketedPlain(piece);
    OpenedAppend("[" + piece, "]");
    OpenedAppend("[", piece);
    OpenedPlain(piece);
  }

  /** Without brackets in the text, a marked match after `prev` reads back as the text it covers. */
  lemma MarkedPlain(text: string, prev: nat, start: nat, end: nat)
    requires prev <= start <= end <= |text| && Plain(text)
    ensures Unbracketed(Marked(text, prev, start, end)) == text[prev..end]
  {
    var gap := if start > prev then text[prev..start] else "";
    var mid := text[start..end];
    PlainSlice(text, prev, start);
    PlainSlice(text, start, end);
    Bracketed(mid);
    UnbracketedAppend(gap, "[" + mid + "]");
    UnbracketedPlain(gap);
    assert text[prev..end] == gap + mid;
  }

  /** Without brackets in the text, a marked match opens exactly one bracket. */
  lemma MarkedOpensOne(text: string, prev: nat, start: nat, end: nat)
    requires prev <= |text| && start <= end <= |text| && Plain(text)
    ensures Opened(Marked(text, prev, start, end)) == 1
  {
    var gap := if start > prev then text[prev..start] else "";
    var mid := text[start..end];
    if start > prev {
      PlainSlice(text, prev, start);
    }
    PlainSlice(text, start, end);
    Bracketed(mid);
    OpenedAppend(gap, "[" + mid + "]");
    OpenedPlain(gap);
  }

  /**
   * With non-overlapping matches in a text without brackets, taking the
   * brackets out of the highlighted text gives back the text.
   */
  lemma {:induction false} HighlightedKeepsText(text: string, m: nat, starts: seq<nat>, prev: nat)
    requires prev <= |text| && Fits(text, m, starts) && Apart(m, starts, prev) && Plain(text)
    ensures Unbracketed(Highlighted(text, m, starts, prev)) == text[prev..]
    decreases |starts|
  {
    if starts == [] {
      UnbracketedPlain(text[prev..]);
    } else {
      var end := starts[0] + m;
      HighlightedKeepsText(text, m, starts[1..], end);
      MarkedPlain(text, prev, starts[0], end);
      UnbracketedAppend(Marked(text, prev, starts[0], end), Highlighted(text, m, starts[1..], end));
      assert text[prev..] == text[prev..end] + text[end..];
    }
  }

  /** The number of opening brackets in a string. */
  function Opened(s: string): nat
  {
    if s == [] then 0 else (if s[0] == '[' then 1 else 0) + Opened(s[1..])
  }

  lemma {:induction false} OpenedAppend(a: string, b: string)
    ensures Opened(a + b) == Opened(a) + Opened(b)
    decreases |a|
  {
    if a != [] {
      assert (a + b)[1..] == a[1..] + b;
      OpenedAppend(a[1..], b);
    } else {
      assert a + b == b;
    }
  }

  lemma {:induction false} OpenedPlain(s: string)
    requires Plain(s)
    ensures Opened(s) == 0
    decreases |s|
  {
    if s != [] {
      OpenedPlain(s[1..]);
    }
  }

  /** In a text without brackets, the highlighted text opens one bracket per match. */
  lemma {:induction false} HighlightedMarksEach(text: string, m: nat, starts: seq<nat>, prev: nat)
    requires prev <= |text| && Fits(text, m, starts) && Plain(text)
    ensures Opened(Highlighted(text, m, starts, prev)) == |starts|
    decreases |starts|
  {
    if starts == [] {
      OpenedPlain(if prev < |text| then text[prev..] else "");
    } else {
      var end := starts[0] + m;
      HighlightedMarksEach(text, m, starts[1..], end);
      MarkedOpensOne(text, prev, starts[0], end);
      OpenedAppend(Marked(text, prev, starts[0], end), Highlighted(text, m, starts[1..], end));
    }
  }

  /** Overlapping matches repeat the shared characters: "aaa" searched for "aa" shows "[aa][aa]". */
  lemma OverlapRepeats()
    ensures Occurrences("aaa", "aa") == [0, 1]
    ensures Highlighted("aaa", 2, [0, 1], 0) == "[aa][aa]"
  {
    OverlapMatches();
    assert [0, 1][1..] == [1];
  }

  lemma OverlapMatches()
    ensures Occurrences("aaa", "aa") == [0, 1]
  {
    var text, pattern := "aaa", "aa";
    assert MatchesAt(text, pattern, 0) by {
      assert text[0..2] == pattern;
    }
    assert MatchesAt(text, pattern, 1) by {
      assert text[1..3] == pattern;
    }
    assert MatchesBelow(text, pattern, 2) == [0, 1];
    MatchesTail(text, pattern, 2);
  }

  /**
   * `kmp_search_with_highlight`: the matches, and the text with each match put
   * in brackets; the text comes back unchanged when there is no match. The
   * matches come out of the search in increasing order, so `sorted` leaves
   * them as they are.
   */
  method KmpSearchWithHighlight(text: string, pattern: string)
    returns (occurrences: seq<nat>, highlighted: string)
    ensures occurrences == Occurrences(text, pattern)
    ensures occurrences == [] ==> highlighted == text
    ensures highlighted == Highlighted(text, |pattern|, occurrences, 0)
    ensures Plain(text) && Apart(|pattern|, occurrences, 0) ==> Unbracketed(highlighted) == text
    ensures Plain(text) ==> Opened(highlighted) == |occurrences|
  {
    occurrences := KmpSearch(text, pattern);
    var m := |pattern|;
    assert Fits(text, m, occurrences);
    if Plain(text) {
      HighlightedMarksEach(text, m, occurrences, 0);
      if Apart(m, occurrences, 0) {
        HighlightedKeepsText(text, m, occurrences, 0);
      }
    }
    if occurrences == [] {
      return occurrences, text;
    }
    highlighted := Highlight(text, m, occurrences);
  }

  lemma Regroup(a: string, b: string, c: string)
    ensures (a + b) + c == a + (b + c)
  {
  }

  /** Highlighting from the k-th start on marks that start, then goes on from the one after. */
  lemma HighlightedStep(text: string, m: nat, starts: seq<nat>, k: nat, prev: nat)
    requires prev <= |text| && Fits(text, m, starts) && k < |starts|
    ensures Fits(text, m, starts[k..]) && Fits(text, m, starts[k + 1..])
    ensures Highlighted(text, m, starts[k..], prev)
      == Marked(text, prev, starts[k], starts[k] + m) + Highlighted(text, m, starts[k + 1..], starts[k] + m)
  {
    assert starts[k..][1..] == starts[k + 1..];
  }

  /**
   * Loop invariant of `kmp_search_with_highlight`: the parts so far, followed
   * by the highlighting of the remaining starts, make up the whole result.
   */
  ghost predicate Building(text: string, m: nat, starts: seq<nat>, k: nat, parts: seq<string>, prevEnd: nat)
  {
    Fits(text, m, starts) && k <= |starts| && prevEnd <= |text|
    && Join(parts) + Highlighted(text, m, starts[k..], prevEnd) == Highlighted(text, m, starts, 0)
  }

  /** The `for` loop of `kmp_search_with_highlight` and the final join of the parts. */
  method Highlight(text: string, m: nat, occurrences: seq<nat>) returns (highlighted: string)
    requires Fits(text, m, occurrences)
    ensures highlighted == Highlighted(text, m, occurrences, 0)
  {
    var parts: seq<string> := [];
    var prevEnd: nat := 0;
    for k := 0 to |occurrences|
      invariant Building(text, m, occurrences, k, parts, prevEnd)
    {
      parts, prevEnd := MarkStep(text, m, occurrences, k, parts, prevEnd);
    }
    assert occurrences[|occurrences|..] == [];
    if prevEnd < |text| {
      parts := Append(parts, text[prevEnd..]);
    }
    highlighted := Join(parts);
  }

  /** One pass of that loop, with `prev_end` moved past the match. */
  method MarkStep(text: string, m: nat, starts: seq<nat>, k: nat, parts: seq<string>, prevEnd: nat)
    returns (parts': seq<string>, prevEnd': nat)
    requires k < |starts| && Building(text, m, starts, k, parts, prevEnd)
    ensures Building(text, m, starts, k + 1, parts', prevEnd')
  {
    var start := starts[k];
    HighlightedStep(text, m, starts, k, prevEnd);
    parts' := MarkNext(text, parts, prevEnd, start, start + m);
    Regroup(Join(parts), Marked(text, prevEnd, start, start + m), Highlighted(text, m, starts[k + 1..], start + m));
    prevEnd' := start + m;
  }

  /** One pass of that loop: the gap before the match when there is one, then the bracketed match. */
  method MarkNext(text: string, parts: seq<string>, prevEnd: nat, start: nat, end: nat)
    returns (parts': seq<string>)
    requires prevEnd <= |text| && start <= end <= |text|
    ensures Join(parts') == Join(parts) + Marked(text, prevEnd, start, end)
  {
    parts' := parts;
    if start > prevEnd {
      parts' := Append(parts', text[prevEnd..start]);
    }
    parts' := Append(parts', "[" + text[start..end] + "]");
  }

  /** `parts.append(piece)`, seen through the joined text. */
  method Append(parts: seq<string>, piece: string) returns (parts': seq<string>)
    ensures parts' == parts + [piece] && Join(parts') == Join(parts) + piece
  {
    parts' := parts + [piece];
    assert parts'[..|parts'| - 1] == parts;
  }
}
