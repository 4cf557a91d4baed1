// Orderings on sequences shared by the searching, sorting and heap labs.

module Ordering {

  /** Non-decreasing order: what `is_sorted` in the sorting lab checks. */
  ghost predicate Sorted(s: seq<int>)
  {
    forall i, j :: 0 <= i < j < |s| ==> s[i] <= s[j]
  }

  /** Non-decreasing order of the keys of the elements. */
  ghost predicate SortedBy<T>(s: seq<T>, key: T -> int)
  {
    forall i, j :: 0 <= i < j < |s| ==> key(s[i]) <= key(s[j])
  }

  /** Strictly increasing order, as an in-order walk of a valid search tree gives. */
  ghost predicate StrictlySorted(s: seq<int>)
  {
    forall i, j :: 0 <= i < j < |s| ==> s[i] < s[j]
  }

  /** Sorted in the adjacent-pairs sense implies sorted in the all-pairs sense. */
  lemma {:induction false} AdjacentSorted(s: seq<int>)
    requires forall i :: 0 < i < |s| ==> s[i - 1] <= s[i]
    ensures Sorted(s)
  {
    if |s| > 1 {
      AdjacentSorted(s[..|s| - 1]);
      assert Sorted(s[..|s| - 1]);
      forall i, j | 0 <= i < j < |s| ensures s[i] <= s[j] {
        if j < |s| - 1 {
          assert s[..|s| - 1][i] <= s[..|s| - 1][j];
        } else if i < j - 1 {
          assert s[..|s| - 1][i] <= s[..|s| - 1][j - 1];
        }
      }
    }
  }
}
