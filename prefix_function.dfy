// The prefix function of a string and the period it yields (lab11).

module PrefixFunction {

  /** `k` is the length of a proper border of `s`: a proper prefix that is also a suffix. */
  predicate Border(s: string, k: nat)
  {
    k < |s| && s[..k] == s[|s| - k..]
  }

  /** The longest proper border of `s` that is at most `k` long (0 always qualifies). */
  function LongestBelow(s: string, k: nat): (r: nat)
    requires k < |s|
    ensures r <= k && Border(s, r)
    ensures forall k' :: r < k' <= k ==> !Border(s, k')
  {
    if k == 0 || Border(s, k) then k else LongestBelow(s, k - 1)
  }

  /** The length of the longest proper border of a non-empty string. */
  function LongestBorder(s: string): (k: nat)
    requires |s| > 0
    ensures Border(s, k) && k < |s|
    ensures forall k' :: k < k' < |s| ==> !Border(s, k')
  {
    LongestBelow(s, |s| - 1)
  }

  /** pi[i] is the longest proper border of pattern[0..i] (both ends included). */
  function PrefixFunctionOf(p: string): seq<nat>
  {
    seq(|p|, i requires 0 <= i < |p| => LongestBorder(p[..i + 1]))
  }

  /** Any maximal proper border is the longest one. */
  lemma LongestIs(s: string, k: nat)
    requires Border(s, k)
    requires forall k' :: k < k' < |s| ==> !Border(s, k')
    ensures LongestBorder(s) == k
  {
  }

  /** A border shorter than a border `j` of `s` is exactly a border of `s[..j]`. */
  lemma BorderOfBorder(s: string, j: nat, k: nat)
    requires Border(s, j) && k < j
    ensures Border(s, k) <==> Border(s[..j], k)
  {
    calc {
      s[|s| - k..];
      s[|s| - j..][j - k..];
      s[..j][j - k..];
    }
    assert s[..j][..k] == s[..k];
  }

  /** Appending `c` turns border `k` into border `k + 1` exactly when `s[k] == c`. */
  lemma BorderExtend(s: string, c: char, k: nat)
    requires k < |s|
    ensures Border(s + [c], k + 1) <==> Border(s, k) && s[k] == c
  {
    var t := s + [c];
    assert t[..k + 1] == s[..k] + [s[k]];
    assert t[|t| - (k + 1)..] == s[|s| - k..] + [c];
    if Border(t, k + 1) {
      assert s[..k] == t[..k + 1][..k] == t[|t| - (k + 1)..][..k] == s[|s| - k..];
      assert s[k] == t[..k + 1][k] == t[|t| - (k + 1)..][k] == c;
    }
  }

  /**
   * The fall-back step: from a border `j` of pattern[0..i) the next candidate is
   * pi[j - 1], and no border lies strictly between the two.
   */
  lemma BorderChain(p: string, i: nat, j: nat)
    requires 0 < j < i <= |p| && Border(p[..i], j)
    ensures LongestBorder(p[..j]) < j
    ensures Border(p[..i], LongestBorder(p[..j]))
    ensures forall k :: LongestBorder(p[..j]) < k < j ==> !Border(p[..i], k)
  {
    assert p[..i][..j] == p[..j];
    forall k: nat | k < j
      ensures Border(p[..i], k) <==> Border(p[..j], k)
    {
      BorderOfBorder(p[..i], j, k);
    }
  }

  /** After the fall-backs stop, one comparison settles the longest border of pattern[0..i]. */
  lemma Extended(p: string, i: nat, j: nat)
    requires 0 < i < |p| && j < i && Border(p[..i], j)
    requires forall k :: j < k < i && Border(p[..i], k) ==> p[k] != p[i]
    requires j == 0 || p[i] == p[j]
    ensures LongestBorder(p[..i + 1]) == if p[i] == p[j] then j + 1 else 0
  {
    var s := p[..i];
    assert p[..i + 1] == s + [p[i]];
    forall k: nat | k < i
      ensures Border(p[..i + 1], k + 1) <==> Border(s, k) && s[k] == p[i]
    {
      BorderExtend(s, p[i], k);
    }
    var r := if p[i] == p[j] then j + 1 else 0;
    assert Border(p[..i + 1], r) by {
      if r == 0 {
        assert p[..i + 1][..0] == p[..i + 1][i + 1..];
      }
    }
    forall k': nat {:trigger Border(p[..i + 1], k')} | r < k' < i + 1
      ensures !Border(p[..i + 1], k')
    {
      var k := k' - 1;
      assert Border(p[..i + 1], k + 1) <==> Border(s, k) && s[k] == p[i];
    }
    LongestIs(p[..i + 1], r);
  }

  /** pi[0..i) holds the prefix function of pattern[0..i). */
  ghost predicate Known(pattern: string, pi: seq<nat>, i: nat)
  {
    i == |pi| <= |pattern| && forall t :: 0 <= t < i ==> pi[t] == LongestBorder(pattern[..t + 1])
  }

  /**
   * One pass of the outer loop of `compute_prefix_function`: starting from
   * pi[i - 1], fall back along pi[j - 1] while pattern[i] != pattern[j], then
   * extend by one on a match.
   */
  method NextEntry(pattern: string, pi: array<nat>, i: nat) returns (j: nat)
    requires 0 < i < |pattern| == pi.Length && Known(pattern, pi[..i], i)
    ensures j == LongestBorder(pattern[..i + 1])
  {
    j := pi[i - 1];
    assert pattern[..i - 1 + 1] == pattern[..i];
    while j > 0 && pattern[i] != pattern[j]
      invariant j < i && Border(pattern[..i], j)
      invariant forall k :: j < k < i && Border(pattern[..i], k) ==> pattern[k] != pattern[i]
      decreases j
    {
      BorderChain(pattern, i, j);
      assert pattern[..j - 1 + 1] == pattern[..j];
      j := pi[j - 1];
    }
    Extended(pattern, i, j);
    if pattern[i] == pattern[j] {
      j := j + 1;
    }
  }

  /**
   * `compute_prefix_function`: the table `pi = [0] * m`, filled left to right;
   * the empty pattern gives the empty table.
   */
  method ComputePrefixFunction(pattern: string) returns (pi: seq<nat>)
    ensures pi == PrefixFunctionOf(pattern)
  {
    var m := |pattern|;
    if m == 0 {
      return [];
    }
    var a := new nat[m](_ => 0);
    assert Border(pattern[..1], 0);
    LongestIs(pattern[..1], 0);
    for i := 1 to m
      invariant Known(pattern, a[..i], i)
    {
      a[i] := NextEntry(pattern, a, i);
      assert a[..i + 1] == a[..i] + [a[i]];
    }
    return a[..];
  }

  /** pi[0] = 0, 0 <= pi[i] <= i, and pi grows by at most one from one entry to the next. */
  lemma PrefixFunctionShape(p: string)
    ensures |PrefixFunctionOf(p)| == |p|
    ensures |p| > 0 ==> PrefixFunctionOf(p)[0] == 0
    ensures forall i :: 0 <= i < |p| ==> PrefixFunctionOf(p)[i] <= i
    ensures forall i :: 0 < i < |p| ==> PrefixFunctionOf(p)[i] <= PrefixFunctionOf(p)[i - 1] + 1
  {
    var pi := PrefixFunctionOf(p);
    forall i | 0 < i < |p|
      ensures pi[i] <= pi[i - 1] + 1
    {
      var k := pi[i];
      if k > 0 {
        assert p[..i + 1] == p[..i] + [p[i]];
        BorderExtend(p[..i], p[i], k - 1);
        assert p[..i - 1 + 1] == p[..i];
      }
    }
  }

  /** One differing pair of characters rules a border out. */
  lemma NotBorder(s: string, k: nat, x: nat)
    requires x < k < |s| && s[x] != s[|s| - k + x]
    ensures !Border(s, k)
  {
    assert s[..k][x] != s[|s| - k..][x];
  }

  /** The sample from the documentation of `compute_prefix_function`. */
  lemma AbababcaSample()
    ensures PrefixFunctionOf("abababca") == [0, 0, 1, 2, 3, 4, 0, 1]
  {
    var s := "abababca";
    assert PrefixFunctionOf(s)[0] == LongestBelow(s[..1], 0);
    NotBorder(s[..2], 1, 0);
    assert PrefixFunctionOf(s)[1] == LongestBelow(s[..2], 0);
    NotBorder(s[..3], 2, 0);
    assert Border(s[..3], 1);
    assert PrefixFunctionOf(s)[2] == LongestBelow(s[..3], 1);
    NotBorder(s[..4], 3, 0);
    assert Border(s[..4], 2);
    assert PrefixFunctionOf(s)[3] == LongestBelow(s[..4], 2);
    NotBorder(s[..5], 4, 0);
    assert Border(s[..5], 3);
    assert PrefixFunctionOf(s)[4] == LongestBelow(s[..5], 3);
    NotBorder(s[..6], 5, 0);
    assert Border(s[..6], 4);
    assert PrefixFunctionOf(s)[5] == LongestBelow(s[..6], 4);
    NotBorder(s[..7], 6, 0);
    NotBorder(s[..7], 5, 4);
    NotBorder(s[..7], 4, 0);
    NotBorder(s[..7], 3, 2);
    NotBorder(s[..7], 2, 0);
    NotBorder(s[..7], 1, 0);
    assert PrefixFunctionOf(s)[6] == LongestBelow(s[..7], 0);
    NotBorder(s[..8], 7, 0);
    NotBorder(s[..8], 6, 4);
    NotBorder(s[..8], 5, 0);
    NotBorder(s[..8], 4, 2);
    NotBorder(s[..8], 3, 0);
    NotBorder(s[..8], 2, 0);
    assert Border(s[..8], 1);
    assert PrefixFunctionOf(s)[7] == LongestBelow(s[..8], 1);
  }

  /** `d` is a period of `s`: each character equals the one `d` places further on. */
  predicate Period(s: string, d: nat)
  {
    0 < d <= |s| && forall i :: 0 <= i < |s| - d ==> s[i] == s[i + d]
  }

  /** A border of length `k` is the same thing as a period of length |s| - k. */
  lemma BorderPeriod(s: string, k: nat)
    requires k < |s|
    ensures Border(s, k) <==> Period(s, |s| - k)
  {
    var d := |s| - k;
    if Border(s, k) {
      forall i | 0 <= i < k
        ensures s[i] == s[i + d]
      {
        assert s[..k][i] == s[|s| - k..][i];
      }
    }
    if Period(s, d) {
      assert s[..k] == s[|s| - k..] by {
        forall i | 0 <= i < k
          ensures s[..k][i] == s[|s| - k..][i]
        {
          assert s[i] == s[i + d];
        }
      }
    }
  }

  /** Periods and borders pair up, so the longest border gives the smallest period. */
  lemma SmallestPeriod(s: string)
    requires |s| > 0
    ensures Period(s, |s| - LongestBorder(s))
    ensures forall d :: 0 < d < |s| - LongestBorder(s) ==> !Period(s, d)
  {
    var k := LongestBorder(s);
    BorderPeriod(s, k);
    forall d | 0 < d < |s| - k
      ensures !Period(s, d)
    {
      BorderPeriod(s, |s| - d);
    }
  }

  /** The smallest period of a non-empty string. */
  function MinPeriod(s: string): (d: nat)
    requires |s| > 0
    ensures Period(s, d)
    ensures forall d' :: 0 < d' < d ==> !Period(s, d')
  {
    SmallestPeriod(s);
    |s| - LongestBorder(s)
  }

  /** `q` copies of `block` written one after the other. */
  function Repeat(block: string, q: nat): (r: string)
    ensures |r| == q * |block|
  {
    if q == 0 then [] else block + Repeat(block, q - 1)
  }

  /** A string of length q * d with period `d` is its first `d` characters repeated q times. */
  lemma {:induction false} PeriodRepeats(s: string, d: nat, q: nat)
    requires Period(s, d) && |s| == q * d
    ensures s == Repeat(s[..d], q)
    decreases q
  {
    if q == 1 {
      assert s == s[..d] + [];
    } else {
      var rest := s[d..];
      assert |rest| == (q - 1) * d;
      assert Period(rest, d) by {
        forall i | 0 <= i < |rest| - d
          ensures rest[i] == rest[i + d]
        {
          assert rest[i] == s[i + d] && rest[i + d] == s[i + d + d];
        }
      }
      PeriodRepeats(rest, d, q - 1);
      assert rest[..d] == s[..d] by {
        forall i | 0 <= i < d
          ensures rest[..d][i] == s[..d][i]
        {
          assert rest[i] == s[i + d];
        }
      }
      assert s == s[..d] + rest;
    }
  }

  /** A period that divides the length makes the string its first block repeated. */
  lemma PeriodDivides(s: string, d: nat)
    requires Period(s, d) && |s| % d == 0
    ensures s == Repeat(s[..d], |s| / d)
  {
    var q := |s| / d;
    assert |s| == q * d;
    PeriodRepeats(s, d, q);
  }

  /** n - pi[n - 1] is the smallest period of the string. */
  lemma CandidatePeriod(s: string)
    requires |s| > 0
    ensures |s| - PrefixFunctionOf(s)[|s| - 1] == MinPeriod(s)
  {
    assert s[..|s| - 1 + 1] == s;
  }

  /**
   * `find_period_using_prefix`: (0, False) for the empty string; otherwise the
   * candidate n - pi[n - 1] is the smallest period, reported with True when it
   * divides n and replaced by (0, False) when it does not. A string without a
   * proper border (pi[n - 1] = 0) is reported as (n, True).
   */
  method FindPeriodUsingPrefix(pattern: string) returns (period: nat, isPeriodic: bool)
    ensures |pattern| == 0 ==> period == 0 && !isPeriodic
    ensures isPeriodic <==> |pattern| > 0 && |pattern| % MinPeriod(pattern) == 0
    ensures isPeriodic ==> period == MinPeriod(pattern) && pattern == Repeat(pattern[..period], |pattern| / period)
    ensures !isPeriodic ==> period == 0
    ensures |pattern| > 0 && PrefixFunctionOf(pattern)[|pattern| - 1] == 0 ==> period == |pattern| && isPeriodic
  {
    if |pattern| == 0 {
      return 0, false;
    }
    var pi := ComputePrefixFunction(pattern);
    var n := |pattern|;
    var candidate := n - pi[n - 1];
    CandidatePeriod(pattern);
    if n % candidate == 0 {
      PeriodDivides(pattern, candidate);
      return candidate, true;
    } else {
      return 0, false;
    }
  }
}
