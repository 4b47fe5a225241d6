/** The module-level helper `unique` of replay.py and the index arithmetic the
    segment tree's upward walk uses. */
module Dedup {

  predicate Sorted(s: seq<int>) {
    forall i, j :: 0 <= i < j < |s| ==> s[i] <= s[j]
  }

  predicate StrictlySorted(s: seq<int>) {
    forall i, j :: 0 <= i < j < |s| ==> s[i] < s[j]
  }

  /** `unique(sorted_array)`: keeps element `i` when its right neighbour
      differs from it, and always keeps the last element, so the last element
      of every run of equal neighbours survives. A one-element input is
      returned as it is. (An empty input makes the boolean mask one element
      longer than the array, and numpy raises IndexError: excluded.) */
  function Unique(s: seq<int>): (r: seq<int>)
    requires |s| >= 1
    ensures 1 <= |r| <= |s|
    ensures forall x :: x in r <==> x in s
    ensures r[0] == s[0] && r[|r| - 1] == s[|s| - 1]
    ensures forall i :: 0 <= i < |r| - 1 ==> r[i] != r[i + 1]
    decreases |s|
  {
    if |s| == 1 then s
    else
      var rest := Unique(s[1..]);
      assert forall x :: x in s <==> x == s[0] || x in s[1..];
      if s[0] != s[1] then [s[0]] + rest else rest
  }

  /** On a sorted array, `unique` returns the distinct elements in increasing
      order: exactly what np.unique would return. */
  lemma {:induction false} UniqueOfSorted(s: seq<int>)
    requires |s| >= 1 && Sorted(s)
    ensures StrictlySorted(Unique(s))
    ensures forall x :: x in Unique(s) <==> x in s
  {
    UniqueStaysSorted(s);
    var r := Unique(s);
    forall i, j | 0 <= i < j < |r| ensures r[i] < r[j] {
      assert r[i] <= r[i + 1] && r[i] != r[i + 1];
    }
  }

  lemma {:induction false} UniqueStaysSorted(s: seq<int>)
    requires |s| >= 1 && Sorted(s)
    ensures Sorted(Unique(s))
    decreases |s|
  {
    if |s| > 1 {
      UniqueStaysSorted(s[1..]);
      var rest := Unique(s[1..]);
      forall x | x in rest ensures s[0] <= x {
        var k :| 0 <= k < |s[1..]| && s[1..][k] == x;
        assert s[k + 1] == x;
      }
    }
  }

  /** One element, however often it is repeated, collapses to one entry. */
  lemma UniqueOfConstant(s: seq<int>, c: int)
    requires |s| >= 1
    requires forall i :: 0 <= i < |s| ==> s[i] == c
    ensures Unique(s) == [c]
  {
  }

  /** `idxs // 2` on non-negative indices: every node's parent. */
  function Parents(s: seq<int>): (r: seq<int>)
    ensures |r| == |s|
    ensures forall i :: 0 <= i < |s| ==> r[i] == s[i] / 2
  {
    if |s| == 0 then [] else [s[0] / 2] + Parents(s[1..])
  }
}
