/**
 * The scan engine, stated sequentially.
 *
 * A scan is parametric in a combine operator `op` and its neutral element `e`.
 * The inclusive scan puts at position i the combine of elements 0..i, the
 * exclusive scan the combine of elements 0..i-1 (the neutral element when that
 * range is empty).  Both are defined through `Fold`, the left-to-right combine
 * of a whole sequence, which is exactly what a single running accumulator
 * computes.  The in-place methods at the end are the sequential meaning of the
 * inclusive and exclusive scan kernels applied to a device array.
 */
module Scan {

  /** `op` may be regrouped freely: the parallel engine relies on it. */
  ghost predicate Associative<T(!new)>(op: (T, T) -> T)
  {
    forall x, y, z :: op(op(x, y), z) == op(x, op(y, z))
  }

  /** `e` is a two-sided identity of `op`. */
  ghost predicate IsNeutral<T(!new)>(op: (T, T) -> T, e: T)
  {
    forall x :: op(e, x) == x && op(x, e) == x
  }

  /** The combine of all of `s`, left to right, starting from `e`. */
  function Fold<T>(op: (T, T) -> T, e: T, s: seq<T>): T
    decreases |s|
  {
    if |s| == 0 then e else op(Fold(op, e, s[..|s| - 1]), s[|s| - 1])
  }

  /** Inclusive scan: position i holds the combine of elements 0..i. */
  function Inclusive<T>(op: (T, T) -> T, e: T, s: seq<T>): (r: seq<T>)
    ensures |r| == |s|
  {
    seq(|s|, i requires 0 <= i < |s| => Fold(op, e, s[..i + 1]))
  }

  /**
   * Exclusive scan: position i holds the combine of elements 0..i-1.  It is
   * the value of the running total before element i is folded in, so
   * combining it with s[i] yields the inclusive result.
   */
  function Exclusive<T>(op: (T, T) -> T, e: T, s: seq<T>): (r: seq<T>)
    ensures |r| == |s|
    ensures |s| > 0 ==> r[0] == e
    ensures forall i {:trigger r[i]} :: 0 <= i < |s| ==> op(r[i], s[i]) == Inclusive(op, e, s)[i]
  {
    var r := seq(|s|, i requires 0 <= i < |s| => Fold(op, e, s[..i]));
    assert forall i :: 0 <= i < |s| ==> s[..i + 1][..i] == s[..i];
    r
  }

  /** The exclusive scan is the inclusive scan shifted right by one place. */
  lemma ExclusiveIsShiftedInclusive<T>(op: (T, T) -> T, e: T, s: seq<T>)
    ensures forall i :: 0 < i < |s| ==> Exclusive(op, e, s)[i] == Inclusive(op, e, s)[i - 1]
  {
  }

  /** Integer addition, the combine of the `a+b` / `0` scans. */
  function Add(x: int, y: int): int
  {
    x + y
  }

  /** The combine `b`: it keeps its right operand. */
  function Right<T>(x: T, y: T): T
  {
    y
  }

  lemma AddIsMonoid()
    ensures Associative(Add) && IsNeutral(Add, 0)
  {
  }

  /** The sum of a sequence, folded from the front as one writes it down. */
  function Sum(s: seq<int>): int
    decreases |s|
  {
    if |s| == 0 then 0 else s[0] + Sum(s[1..])
  }

  /** The cumulative sum of `s` (numpy's cumsum). */
  function CumSum(s: seq<int>): (r: seq<int>)
    ensures |r| == |s|
  {
    seq(|s|, i requires 0 <= i < |s| => Sum(s[..i + 1]))
  }

  lemma {:induction false} SumAppend(s: seq<int>, x: int)
    ensures Sum(s + [x]) == Sum(s) + x
    decreases |s|
  {
    if |s| > 0 {
      assert (s + [x])[1..] == s[1..] + [x];
      SumAppend(s[1..], x);
    }
  }

  /** Folding with `+` from 0 is the sum. */
  lemma {:induction false} FoldAddIsSum(s: seq<int>)
    ensures Fold(Add, 0, s) == Sum(s)
    decreases |s|
  {
    if |s| > 0 {
      var init := s[..|s| - 1];
      FoldAddIsSum(init);
      SumAppend(init, s[|s| - 1]);
      assert init + [s[|s| - 1]] == s;
    }
  }

  /** Splitting the input splits the fold: the basis of every blocked scan. */
  lemma {:induction false} FoldConcat<T(!new)>(op: (T, T) -> T, e: T, a: seq<T>, b: seq<T>)
    requires Associative(op) && IsNeutral(op, e)
    ensures Fold(op, e, a + b) == op(Fold(op, e, a), Fold(op, e, b))
    decreases |b|
  {
    if |b| == 0 {
      assert a + b == a;
    } else {
      var b' := b[..|b| - 1];
      assert (a + b)[..|a + b| - 1] == a + b';
      FoldConcat(op, e, a, b');
    }
  }

  /**
   * The scan of a concatenation: the scan of the first part, followed by the
   * scan of the second part with the first part's total combined in front.
   */
  lemma InclusiveConcat<T(!new)>(op: (T, T) -> T, e: T, a: seq<T>, b: seq<T>)
    requires Associative(op) && IsNeutral(op, e)
    ensures Inclusive(op, e, a + b)
         == Inclusive(op, e, a) + seq(|b|, j requires 0 <= j < |b| => op(Fold(op, e, a), Inclusive(op, e, b)[j]))
  {
    var lhs := Inclusive(op, e, a + b);
    var rhs := Inclusive(op, e, a) + seq(|b|, j requires 0 <= j < |b| => op(Fold(op, e, a), Inclusive(op, e, b)[j]));
    forall i | 0 <= i < |a + b|
      ensures lhs[i] == rhs[i]
    {
      if i < |a| {
        assert (a + b)[..i + 1] == a[..i + 1];
      } else {
        var j := i - |a|;
        assert (a + b)[..i + 1] == a + b[..j + 1];
        FoldConcat(op, e, a, b[..j + 1]);
        assert lhs[i] == Fold(op, e, a + b[..j + 1]);
        assert rhs[i] == op(Fold(op, e, a), Inclusive(op, e, b)[j]);
      }
    }
  }

  /**
   * With `a+b` and `0`, the inclusive scan is the cumulative sum and the
   * exclusive scan is the cumulative sum minus the element itself; in
   * particular position 0 of the exclusive scan is 0.
   */
  lemma SumScans(s: seq<int>)
    ensures Inclusive(Add, 0, s) == CumSum(s)
    ensures forall i :: 0 <= i < |s| ==> Exclusive(Add, 0, s)[i] == CumSum(s)[i] - s[i]
    ensures |s| > 0 ==> Exclusive(Add, 0, s)[0] == 0
  {
    forall i | 0 <= i < |s|
      ensures Inclusive(Add, 0, s)[i] == CumSum(s)[i]
    {
      FoldAddIsSum(s[..i + 1]);
    }
  }

  /**
   * Index preservation: with the combine `b` every position of the inclusive
   * scan holds the input at that position, so a scan of the input `i` writes
   * `i` at index `i`, whatever the length.
   */
  lemma RightScanPreserves<T>(e: T, s: seq<T>)
    ensures Inclusive(Right, e, s) == s
  {
    forall i | 0 <= i < |s|
      ensures Inclusive(Right, e, s)[i] == s[i]
    {
      assert s[..i + 1][i] == s[i];
    }
  }

  /** The sequence 0, 1, ..., n-1: the input expression `i`. */
  function Iota(n: nat): (r: seq<int>)
    ensures |r| == n
  {
    seq(n, i requires 0 <= i < n => i)
  }

  lemma IndexPreservation(n: nat)
    ensures forall i :: 0 <= i < n ==> Inclusive(Right, 0, Iota(n))[i] == i
  {
    RightScanPreserves(0, Iota(n));
  }

  /**
   * The inclusive scan kernel run in place: every element is replaced by the
   * combine of itself and all elements before it.
   */
  method InclusiveScanInPlace<T>(a: array<T>, op: (T, T) -> T, e: T)
    modifies a
    ensures a[..] == Inclusive(op, e, old(a[..]))
  {
    ghost var s := a[..];
    var acc := e;
    for i := 0 to a.Length
      invariant acc == Fold(op, e, s[..i])
      invariant forall k :: 0 <= k < i ==> a[k] == Fold(op, e, s[..k + 1])
      invariant forall k :: i <= k < a.Length ==> a[k] == s[k]
    {
      assert s[..i + 1][..i] == s[..i];
      acc := op(acc, a[i]);
      a[i] := acc;
    }
  }

  /**
   * The exclusive scan kernel run in place: every element is replaced by the
   * combine of the elements before it.  It also yields the final inclusive
   * value, the combine of the whole input (the total count of copy_if and of
   * the list builder's count pass).
   */
  method ExclusiveScanInPlace<T>(a: array<T>, op: (T, T) -> T, e: T) returns (total: T)
    modifies a
    ensures a[..] == Exclusive(op, e, old(a[..]))
    ensures total == Fold(op, e, old(a[..]))
  {
    ghost var s := a[..];
    var acc := e;
    for i := 0 to a.Length
      invariant acc == Fold(op, e, s[..i])
      invariant forall k :: 0 <= k < i ==> a[k] == Fold(op, e, s[..k])
      invariant forall k :: i <= k < a.Length ==> a[k] == s[k]
    {
      assert s[..i + 1][..i] == s[..i];
      var x := a[i];
      a[i] := acc;
      acc := op(acc, x);
    }
    assert s[..a.Length] == s;
    total := acc;
  }
}
