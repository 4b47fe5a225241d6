/** A numpy/torch fancy-index assignment `a[idxs] = vals`, read as one write
    after another from left to right, so that a repeated index keeps the value
    written last. */
module Batches {

  predicate InRange(idxs: seq<int>, n: int) {
    forall j :: 0 <= j < |idxs| ==> 0 <= idxs[j] < n
  }

  /** `s` after writing `vals[j]` at `idxs[j]` for j = 0, 1, ... in turn. */
  function WriteAll<T>(s: seq<T>, idxs: seq<int>, vals: seq<T>): (r: seq<T>)
    requires |idxs| == |vals| && InRange(idxs, |s|)
    ensures |r| == |s|
    decreases |idxs|
  {
    if |idxs| == 0 then s
    else
      var n := |idxs| - 1;
      WriteAll(s, idxs[..n], vals[..n])[idxs[n] := vals[n]]
  }

  /** A position that no index names keeps its old value. */
  lemma {:induction false} WriteAllUntouched<T>(s: seq<T>, idxs: seq<int>, vals: seq<T>, p: int)
    requires |idxs| == |vals| && InRange(idxs, |s|)
    requires 0 <= p < |s| && p !in idxs
    ensures WriteAll(s, idxs, vals)[p] == s[p]
    decreases |idxs|
  {
    if |idxs| > 0 {
      var n := |idxs| - 1;
      assert p !in idxs[..n] by {
        forall j | 0 <= j < n ensures idxs[..n][j] != p { assert idxs[j] != p; }
      }
      WriteAllUntouched(s, idxs[..n], vals[..n], p);
    }
  }

  /** A position named at `j` and at no later index holds `vals[j]`. */
  lemma {:induction false} WriteAllLastWins<T>(s: seq<T>, idxs: seq<int>, vals: seq<T>, j: int)
    requires |idxs| == |vals| && InRange(idxs, |s|)
    requires 0 <= j < |idxs|
    requires forall j' :: j < j' < |idxs| ==> idxs[j'] != idxs[j]
    ensures WriteAll(s, idxs, vals)[idxs[j]] == vals[j]
    decreases |idxs|
  {
    var n := |idxs| - 1;
    if j < n {
      assert idxs[..n][j] == idxs[j] && vals[..n][j] == vals[j];
      WriteAllLastWins(s, idxs[..n], vals[..n], j);
      assert idxs[n] != idxs[j];
    }
  }

  /** The last position of `p` in `idxs`. */
  function LastIndex(idxs: seq<int>, p: int): (j: int)
    requires p in idxs
    ensures 0 <= j < |idxs| && idxs[j] == p
    ensures forall j' :: j < j' < |idxs| ==> idxs[j'] != p
    decreases |idxs|
  {
    var n := |idxs| - 1;
    if idxs[n] == p then n
    else
      assert p in idxs[..n] by {
        var k :| 0 <= k < |idxs| && idxs[k] == p;
        assert k < n && idxs[..n][k] == p;
      }
      LastIndex(idxs[..n], p)
  }

  /** Every position after the writes: the value written there last, or
      the old value where nothing was written. */
  lemma WriteAllAt<T>(s: seq<T>, idxs: seq<int>, vals: seq<T>, p: int)
    requires |idxs| == |vals| && InRange(idxs, |s|) && 0 <= p < |s|
    ensures WriteAll(s, idxs, vals)[p] == if p in idxs then vals[LastIndex(idxs, p)] else s[p]
  {
    if p in idxs {
      WriteAllLastWins(s, idxs, vals, LastIndex(idxs, p));
    } else {
      WriteAllUntouched(s, idxs, vals, p);
    }
  }
}
