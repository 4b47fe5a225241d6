/** Associative operators with a neutral element, and the left fold that a
    segment tree caches. */
module Monoids {

  /** `op` is associative and `e` is its two-sided neutral element: what a
      segment tree asks of its operation and neutral element. */
  ghost predicate IsMonoid<V(!new)>(op: (V, V) -> V, e: V) {
    && (forall a, b, c :: op(op(a, b), c) == op(a, op(b, c)))
    && (forall a :: op(e, a) == a && op(a, e) == a)
  }

  /** The elements s[lo], ..., s[hi - 1] combined by `op` in order, bracketed
      to the right; `e` for an empty range. */
  function Fold<V>(op: (V, V) -> V, e: V, s: seq<V>, lo: int, hi: int): V
    requires 0 <= lo <= hi <= |s|
    decreases hi - lo
  {
    if lo == hi then e else op(s[lo], Fold(op, e, s, lo + 1, hi))
  }

  /** What a segment tree uses of `IsMonoid`: `e` is a right identity, and
      the fold of a range is the two folds of its halves combined. The split
      law fires only when both halves are already being talked about. */
  ghost predicate Splits<V(!new)>(op: (V, V) -> V, e: V) {
    && (forall a :: op(a, e) == a)
    && (forall s: seq<V>, lo, m, hi {:trigger Fold(op, e, s, lo, m), Fold(op, e, s, m, hi)}
          :: 0 <= lo <= m <= hi <= |s| ==>
             Fold(op, e, s, lo, hi) == op(Fold(op, e, s, lo, m), Fold(op, e, s, m, hi)))
  }

  lemma {:induction false} FoldSplitAt<V(!new)>(op: (V, V) -> V, e: V, s: seq<V>, lo: int, m: int, hi: int)
    requires IsMonoid(op, e)
    requires 0 <= lo <= m <= hi <= |s|
    ensures Fold(op, e, s, lo, hi) == op(Fold(op, e, s, lo, m), Fold(op, e, s, m, hi))
    decreases m - lo
  {
    if lo < m {
      FoldSplitAt(op, e, s, lo + 1, m, hi);
    }
  }

  lemma MonoidSplits<V(!new)>(op: (V, V) -> V, e: V)
    requires IsMonoid(op, e)
    ensures Splits(op, e)
  {
    forall s: seq<V>, lo, m, hi | 0 <= lo <= m <= hi <= |s|
      ensures Fold(op, e, s, lo, hi) == op(Fold(op, e, s, lo, m), Fold(op, e, s, m, hi))
    {
      FoldSplitAt(op, e, s, lo, m, hi);
    }
  }

  lemma FoldSingleton<V(!new)>(op: (V, V) -> V, e: V, s: seq<V>, i: int)
    requires Splits(op, e) && 0 <= i < |s|
    ensures Fold(op, e, s, i, i + 1) == s[i]
  {
  }

  // ---------------------------------------------------------------- sum

  function Add(a: real, b: real): real { a + b }

  lemma AddIsMonoid()
    ensures IsMonoid(Add, 0.0)
  {
  }

  /** s[lo] + ... + s[hi - 1]: the value a sum tree caches for a range. */
  function Sum(s: seq<real>, lo: int, hi: int): real
    requires 0 <= lo <= hi <= |s|
  {
    Fold(Add, 0.0, s, lo, hi)
  }

  /** A sum splits at any point of its range. */
  lemma {:induction false} SumSplit(s: seq<real>, lo: int, m: int, hi: int)
    requires 0 <= lo <= m <= hi <= |s|
    ensures Sum(s, lo, hi) == Sum(s, lo, m) + Sum(s, m, hi)
    decreases m - lo
  {
    if lo < m {
      SumSplit(s, lo + 1, m, hi);
    }
  }

  /** Over non-negative values, a longer prefix has a sum at least as
      large. */
  lemma SumMonotone(s: seq<real>, a: int, b: int)
    requires 0 <= a <= b <= |s|
    requires forall i :: 0 <= i < |s| ==> s[i] >= 0.0
    ensures Sum(s, 0, a) <= Sum(s, 0, b)
  {
    SumSplit(s, 0, a, b);
    SumNonNegative(s, a, b);
  }

  lemma {:induction false} SumNonNegative(s: seq<real>, lo: int, hi: int)
    requires 0 <= lo <= hi <= |s|
    requires forall i :: lo <= i < hi ==> s[i] >= 0.0
    ensures Sum(s, lo, hi) >= 0.0
    decreases hi - lo
  {
    if lo < hi {
      SumNonNegative(s, lo + 1, hi);
    }
  }

  /** A sum of positive values, at least one of them, is positive. */
  lemma {:induction false} SumPositive(s: seq<real>, lo: int, hi: int)
    requires 0 <= lo < hi <= |s|
    requires forall i :: lo <= i < hi ==> s[i] > 0.0
    ensures Sum(s, lo, hi) > 0.0
    decreases hi - lo
  {
    if lo + 1 < hi {
      SumPositive(s, lo + 1, hi);
    } else {
      assert Sum(s, lo, hi) == s[lo] + Sum(s, hi, hi);
    }
  }

  // ---------------------------------------------------------------- min

  /** A real number or +infinity, the neutral element of `min`. */
  datatype Extended = Finite(x: real) | PosInf

  predicate Le(a: Extended, b: Extended) {
    match (a, b)
    case (_, PosInf) => true
    case (PosInf, Finite(_)) => false
    case (Finite(x), Finite(y)) => x <= y
  }

  function Min(a: Extended, b: Extended): (r: Extended)
    ensures Le(r, a) && Le(r, b)
    ensures r == a || r == b
  {
    if Le(a, b) then a else b
  }

  lemma MinIsMonoid()
    ensures IsMonoid(Min, PosInf)
  {
    forall a, b, c ensures Min(Min(a, b), c) == Min(a, Min(b, c)) {
    }
  }

  /** The least of s[lo..hi] (PosInf for an empty range): the value a min
      tree caches for a range. */
  function Minimum(s: seq<Extended>, lo: int, hi: int): Extended
    requires 0 <= lo <= hi <= |s|
  {
    Fold(Min, PosInf, s, lo, hi)
  }

  /** The minimum of a range is a lower bound of it and one of its
      elements. */
  lemma {:induction false} MinimumIsLeast(s: seq<Extended>, lo: int, hi: int)
    requires 0 <= lo <= hi <= |s|
    ensures forall i :: lo <= i < hi ==> Le(Minimum(s, lo, hi), s[i])
    ensures lo < hi ==> exists i :: lo <= i < hi && Minimum(s, lo, hi) == s[i]
    ensures lo == hi ==> Minimum(s, lo, hi) == PosInf
    decreases hi - lo
  {
    if lo < hi {
      MinimumIsLeast(s, lo + 1, hi);
      forall i | lo < i < hi ensures Le(Minimum(s, lo, hi), s[i]) {
        LeTransitive(Minimum(s, lo, hi), Minimum(s, lo + 1, hi), s[i]);
      }
      if lo + 1 == hi {
        assert Minimum(s, lo, hi) == s[lo];
      }
    }
  }

  lemma LeTransitive(a: Extended, b: Extended, c: Extended)
    requires Le(a, b) && Le(b, c)
    ensures Le(a, c)
  {
  }
}
