/**
 * Segmented scan.  Per-index start flags split the input into segments and
 * no combine crosses a flagged index; index 0 always starts a segment.
 *
 * The kernel obtains this from the generic engine by scanning lifted items
 * (a "crossed a segment start" bit and a value) under the combine
 * `across_seg_boundary ? b : a+b`, generalised here to any operator.  For
 * exclusive consumers the value at a flagged index is reset to the neutral
 * element.  This module defines the intended meaning per index
 * (`SegInclusive`, `SegExclusive`), proves the lifted kernel computes it, that
 * each segment is scanned independently, that nothing crosses a flag, that the
 * blocked multi-level engine computes it for every block size, and models the
 * host-side reference loop of the test.
 */
module SegmentedScan {
  import opened Scan
  import opened BlockedScan

  /** A lifted scan element: whether a segment start lies in the combined range, and the value since the last one. */
  datatype Item<T> = Item(crossed: bool, val: T)

  /** The segmented combine: a right operand that crossed a start discards the left value. */
  function SegCombine<T>(op: (T, T) -> T, a: Item<T>, b: Item<T>): Item<T>
  {
    Item(a.crossed || b.crossed, if b.crossed then b.val else op(a.val, b.val))
  }

  function SegOp<T>(op: (T, T) -> T): (Item<T>, Item<T>) -> Item<T>
  {
    (a: Item<T>, b: Item<T>) => SegCombine(op, a, b)
  }

  /** The segmented combine is again associative, with neutral `Item(false, e)`. */
  lemma SegOpMonoid<T(!new)>(op: (T, T) -> T, e: T)
    requires Associative(op) && IsNeutral(op, e)
    ensures Associative(SegOp(op)) && IsNeutral(SegOp(op), Item(false, e))
  {
    forall x: Item<T>, y: Item<T>, z: Item<T>
      ensures SegCombine(op, SegCombine(op, x, y), z) == SegCombine(op, x, SegCombine(op, y, z))
    {
      if !z.crossed && !y.crossed {
        assert op(op(x.val, y.val), z.val) == op(x.val, op(y.val, z.val));
      }
    }
    forall x: Item<T>
      ensures SegCombine(op, Item(false, e), x) == x && SegCombine(op, x, Item(false, e)) == x
    {
      assert op(e, x.val) == x.val && op(x.val, e) == x.val;
    }
  }

  /** The kernel's input: element i paired with the flag of index i. */
  function Lift<T>(s: seq<T>, flags: seq<bool>): (r: seq<Item<T>>)
    requires |flags| == |s|
    ensures |r| == |s|
  {
    seq(|s|, i requires 0 <= i < |s| => Item(flags[i], s[i]))
  }

  /** The start of the segment holding index i: the last flag at or before i, else 0. */
  function SegStart(flags: seq<bool>, i: nat): (j: nat)
    requires i < |flags|
    ensures j <= i
    ensures j == 0 || flags[j]
    ensures forall k :: j < k <= i ==> !flags[k]
  {
    if i == 0 || flags[i] then i else SegStart(flags, i - 1)
  }

  /** Intended inclusive result: the combine of the segment's elements up to and including i. */
  function SegInclusive<T>(op: (T, T) -> T, e: T, s: seq<T>, flags: seq<bool>): (r: seq<T>)
    requires |flags| == |s|
    ensures |r| == |s|
  {
    seq(|s|, i requires 0 <= i < |s| => Fold(op, e, s[SegStart(flags, i)..i + 1]))
  }

  /** Intended exclusive result: the combine of the segment's elements before i. */
  function SegExclusive<T>(op: (T, T) -> T, e: T, s: seq<T>, flags: seq<bool>): (r: seq<T>)
    requires |flags| == |s|
    ensures |r| == |s|
  {
    seq(|s|, i requires 0 <= i < |s| => Fold(op, e, s[SegStart(flags, i)..i]))
  }

  /** What the kernel exposes as `item`: the value part of the lifted inclusive scan. */
  function KernelInclusive<T>(op: (T, T) -> T, e: T, s: seq<T>, flags: seq<bool>): (r: seq<T>)
    requires |flags| == |s|
    ensures |r| == |s|
  {
    var lifted := Inclusive(SegOp(op), Item(false, e), Lift(s, flags));
    seq(|s|, i requires 0 <= i < |s| => lifted[i].val)
  }

  /** What the kernel exposes as `prev_item`: neutral at a flagged index, else the lifted exclusive value. */
  function KernelExclusive<T>(op: (T, T) -> T, e: T, s: seq<T>, flags: seq<bool>): (r: seq<T>)
    requires |flags| == |s|
    ensures |r| == |s|
  {
    var lifted := Exclusive(SegOp(op), Item(false, e), Lift(s, flags));
    seq(|s|, i requires 0 <= i < |s| => if flags[i] then e else lifted[i].val)
  }

  /** The running lifted value at i carries the combine of i's segment so far. */
  lemma {:induction false} LiftedFold<T(!new)>(op: (T, T) -> T, e: T, s: seq<T>, flags: seq<bool>, i: nat)
    requires IsNeutral(op, e)
    requires |flags| == |s| && i < |s|
    ensures Fold(SegOp(op), Item(false, e), Lift(s, flags)[..i + 1]).val == Fold(op, e, s[SegStart(flags, i)..i + 1])
    decreases i
  {
    var lifted := Lift(s, flags);
    var st := SegStart(flags, i);
    assert lifted[..i + 1][..i] == lifted[..i];
    if flags[i] {
      assert s[st..i + 1] == [s[i]];
      assert Fold(op, e, s[st..i + 1]) == op(e, s[i]);
    } else if i == 0 {
      assert s[st..i + 1] == [s[0]];
    } else {
      LiftedFold(op, e, s, flags, i - 1);
      assert lifted[..i] == lifted[..i - 1 + 1];
      assert s[st..i + 1][..i - st] == s[st..i];
    }
  }

  /** The lifted kernel computes the intended segmented scan, inclusive and exclusive. */
  lemma KernelMatchesSpec<T(!new)>(op: (T, T) -> T, e: T, s: seq<T>, flags: seq<bool>)
    requires IsNeutral(op, e)
    requires |flags| == |s|
    ensures KernelInclusive(op, e, s, flags) == SegInclusive(op, e, s, flags)
    ensures KernelExclusive(op, e, s, flags) == SegExclusive(op, e, s, flags)
  {
    forall i | 0 <= i < |s|
      ensures KernelInclusive(op, e, s, flags)[i] == SegInclusive(op, e, s, flags)[i]
      ensures KernelExclusive(op, e, s, flags)[i] == SegExclusive(op, e, s, flags)[i]
    {
      KernelInclusiveAt(op, e, s, flags, i);
      KernelExclusiveAt(op, e, s, flags, i);
    }
  }

  lemma KernelInclusiveAt<T(!new)>(op: (T, T) -> T, e: T, s: seq<T>, flags: seq<bool>, i: nat)
    requires IsNeutral(op, e)
    requires |flags| == |s| && i < |s|
    ensures KernelInclusive(op, e, s, flags)[i] == SegInclusive(op, e, s, flags)[i]
  {
    LiftedFold(op, e, s, flags, i);
  }

  lemma KernelExclusiveAt<T(!new)>(op: (T, T) -> T, e: T, s: seq<T>, flags: seq<bool>, i: nat)
    requires IsNeutral(op, e)
    requires |flags| == |s| && i < |s|
    ensures KernelExclusive(op, e, s, flags)[i] == SegExclusive(op, e, s, flags)[i]
  {
    var lifted := Lift(s, flags);
    var ex := Exclusive(SegOp(op), Item(false, e), lifted);
    var st := SegStart(flags, i);
    assert KernelExclusive(op, e, s, flags)[i] == if flags[i] then e else ex[i].val;
    assert SegExclusive(op, e, s, flags)[i] == Fold(op, e, s[st..i]);
    if flags[i] || i == 0 {
      assert s[st..i] == [];
    } else {
      assert ex[i].val == Fold(op, e, s[st..i]) by {
        assert ex[i] == Fold(SegOp(op), Item(false, e), lifted[..i]);
        assert lifted[..i] == lifted[..i - 1 + 1];
        assert st == SegStart(flags, i - 1);
        LiftedFold(op, e, s, flags, i - 1);
      }
    }
  }

  /**
   * Each segment is scanned independently: on a range that starts a segment
   * (index 0 or a flag) and contains no further flag, the segmented results
   * are the plain scans of that range.
   */
  lemma SegmentIsIndependentScan<T>(op: (T, T) -> T, e: T, s: seq<T>, flags: seq<bool>, b: nat, c: nat)
    requires |flags| == |s| && b < c <= |s|
    requires b == 0 || flags[b]
    requires forall k :: b < k < c ==> !flags[k]
    ensures SegInclusive(op, e, s, flags)[b..c] == Inclusive(op, e, s[b..c])
    ensures SegExclusive(op, e, s, flags)[b..c] == Exclusive(op, e, s[b..c])
  {
    var si, se := SegInclusive(op, e, s, flags), SegExclusive(op, e, s, flags);
    var ti, te := Inclusive(op, e, s[b..c]), Exclusive(op, e, s[b..c]);
    forall d | 0 <= d < c - b
      ensures si[b..c][d] == ti[d] && se[b..c][d] == te[d]
    {
      SegStartInRun(flags, b, c, b + d);
      SegmentPoint(op, e, s, flags, b, c, d);
    }
  }

  /** One position of a segment: both segmented results there are the plain scans' results. */
  lemma SegmentPoint<T>(op: (T, T) -> T, e: T, s: seq<T>, flags: seq<bool>, b: nat, c: nat, d: nat)
    requires |flags| == |s| && b + d < c <= |s|
    requires SegStart(flags, b + d) == b
    ensures SegInclusive(op, e, s, flags)[b + d] == Inclusive(op, e, s[b..c])[d]
    ensures SegExclusive(op, e, s, flags)[b + d] == Exclusive(op, e, s[b..c])[d]
  {
    SegInclusiveAt(op, e, s, flags, b, d);
    SegExclusiveAt(op, e, s, flags, b, d);
    InclusiveOfSlice(op, e, s, b, c, d);
    ExclusiveOfSlice(op, e, s, b, c, d);
  }

  lemma SegInclusiveAt<T>(op: (T, T) -> T, e: T, s: seq<T>, flags: seq<bool>, b: nat, d: nat)
    requires |flags| == |s| && b + d < |s|
    requires SegStart(flags, b + d) == b
    ensures SegInclusive(op, e, s, flags)[b + d] == Fold(op, e, s[b..b + d + 1])
  {
  }

  lemma SegExclusiveAt<T>(op: (T, T) -> T, e: T, s: seq<T>, flags: seq<bool>, b: nat, d: nat)
    requires |flags| == |s| && b + d < |s|
    requires SegStart(flags, b + d) == b
    ensures SegExclusive(op, e, s, flags)[b + d] == Fold(op, e, s[b..b + d])
  {
  }

  lemma InclusiveOfSlice<T>(op: (T, T) -> T, e: T, s: seq<T>, b: nat, c: nat, d: nat)
    requires b + d < c <= |s|
    ensures Inclusive(op, e, s[b..c])[d] == Fold(op, e, s[b..b + d + 1])
  {
    assert s[b..c][..d + 1] == s[b..b + d + 1];
  }

  lemma ExclusiveOfSlice<T>(op: (T, T) -> T, e: T, s: seq<T>, b: nat, c: nat, d: nat)
    requires b + d < c <= |s|
    ensures Exclusive(op, e, s[b..c])[d] == Fold(op, e, s[b..b + d])
  {
    assert s[b..c][..d] == s[b..b + d];
  }

  /** Inside a run that starts a segment and holds no further flag, every index's segment starts at the run's start. */
  lemma SegStartInRun(flags: seq<bool>, b: nat, c: nat, i: nat)
    requires b <= i < c <= |flags|
    requires b == 0 || flags[b]
    requires forall k :: b < k < c ==> !flags[k]
    ensures SegStart(flags, i) == b
  {
  }

  /**
   * Nothing crosses a flagged index: outputs at and after a flag do not
   * depend on any element before it.
   */
  lemma NoCrossing<T>(op: (T, T) -> T, e: T, s: seq<T>, s': seq<T>, flags: seq<bool>, f: nat)
    requires |flags| == |s| == |s'| && f < |s|
    requires flags[f]
    requires s[f..] == s'[f..]
    ensures SegInclusive(op, e, s, flags)[f..] == SegInclusive(op, e, s', flags)[f..]
    ensures SegExclusive(op, e, s, flags)[f..] == SegExclusive(op, e, s', flags)[f..]
  {
    forall i | f <= i < |s|
      ensures s[SegStart(flags, i)..i + 1] == s'[SegStart(flags, i)..i + 1]
      ensures s[SegStart(flags, i)..i] == s'[SegStart(flags, i)..i]
    {
      var st := SegStart(flags, i);
      assert f <= st;
      assert forall k :: st <= k <= i ==> s[k] == s[f..][k - f] == s'[f..][k - f] == s'[k];
    }
  }

  /**
   * With `a+b` and `0` (the test's combine): the inclusive output is the
   * cumulative sum within the segment, and the exclusive output is 0 at every
   * segment start and elsewhere the sum of the earlier items of the segment.
   */
  lemma SegmentedSums(s: seq<int>, flags: seq<bool>)
    requires |flags| == |s|
    ensures forall i :: 0 <= i < |s| ==> SegInclusive(Add, 0, s, flags)[i] == Sum(s[SegStart(flags, i)..i + 1])
    ensures forall i :: 0 <= i < |s| && (i == 0 || flags[i]) ==> SegExclusive(Add, 0, s, flags)[i] == 0
    ensures forall i :: 0 <= i < |s| ==> SegExclusive(Add, 0, s, flags)[i] == Sum(s[SegStart(flags, i)..i])
  {
    forall i | 0 <= i < |s|
      ensures SegInclusive(Add, 0, s, flags)[i] == Sum(s[SegStart(flags, i)..i + 1])
      ensures SegExclusive(Add, 0, s, flags)[i] == Sum(s[SegStart(flags, i)..i])
    {
      FoldAddIsSum(s[SegStart(flags, i)..i + 1]);
      FoldAddIsSum(s[SegStart(flags, i)..i]);
    }
  }

  /**
   * The blocked multi-level engine run over the lifted items computes the
   * segmented scan for every block size and every placement of flags,
   * including flags that fall on or next to a block boundary.
   */
  lemma BlockedSegmentedInclusive<T(!new)>(op: (T, T) -> T, e: T, s: seq<T>, flags: seq<bool>, size: nat)
    requires Associative(op) && IsNeutral(op, e)
    requires |flags| == |s| && size >= 2
    ensures forall i :: 0 <= i < |s| ==>
      MultiLevelInclusive(SegOp(op), Item(false, e), Lift(s, flags), size)[i].val == SegInclusive(op, e, s, flags)[i]
  {
    SegOpMonoid(op, e);
    MultiLevelCorrect(SegOp(op), Item(false, e), Lift(s, flags), size);
    KernelMatchesSpec(op, e, s, flags);
    forall i | 0 <= i < |s|
      ensures MultiLevelInclusive(SegOp(op), Item(false, e), Lift(s, flags), size)[i].val == SegInclusive(op, e, s, flags)[i]
    {
      assert KernelInclusive(op, e, s, flags)[i] == SegInclusive(op, e, s, flags)[i];
    }
  }

  /** The same for the exclusive output of the two-level engine. */
  lemma BlockedSegmentedExclusive<T(!new)>(op: (T, T) -> T, e: T, s: seq<T>, flags: seq<bool>, size: nat)
    requires Associative(op) && IsNeutral(op, e)
    requires |flags| == |s| && size >= 2
    ensures forall i :: 0 <= i < |s| ==>
      (if flags[i] then e else TwoLevelExclusive(SegOp(op), Item(false, e), Blocks(Lift(s, flags), size))[i].val)
      == SegExclusive(op, e, s, flags)[i]
  {
    SegOpMonoid(op, e);
    var r := TwoLevelExclusive(SegOp(op), Item(false, e), Blocks(Lift(s, flags), size));
    TwoLevelExclusiveCorrect(SegOp(op), Item(false, e), Blocks(Lift(s, flags), size));
    assert r == Exclusive(SegOp(op), Item(false, e), Lift(s, flags));
    KernelMatchesSpec(op, e, s, flags);
    forall i | 0 <= i < |s|
      ensures (if flags[i] then e else r[i].val) == SegExclusive(op, e, s, flags)[i]
    {
      assert KernelExclusive(op, e, s, flags)[i] == SegExclusive(op, e, s, flags)[i];
    }
  }

  /**
   * The segmented scan kernel, run sequentially: `input` is the input
   * expression at each index, `flags` the segment-start expression, and the
   * output statement writes `item` (inclusive) or `prev_item` (exclusive).
   */
  method SegmentedScanKernel<T(!new)>(input: seq<T>, flags: seq<bool>, op: (T, T) -> T, e: T, exclusive: bool, out: array<T>)
    requires IsNeutral(op, e)
    requires |flags| == |input| == out.Length
    modifies out
    ensures out[..] == if exclusive then SegExclusive(op, e, input, flags) else SegInclusive(op, e, input, flags)
  {
    ghost var lifted := Lift(input, flags);
    var acc := Item(false, e);
    for i := 0 to |input|
      invariant acc == Fold(SegOp(op), Item(false, e), lifted[..i])
      invariant forall k :: 0 <= k < i ==>
        out[k] == if exclusive then KernelExclusive(op, e, input, flags)[k] else KernelInclusive(op, e, input, flags)[k]
    {
      assert lifted[..i + 1][..i] == lifted[..i];
      var prev := acc;
      acc := SegCombine(op, acc, Item(flags[i], input[i]));
      out[i] := if exclusive then (if flags[i] then e else prev.val) else acc.val;
    }
    KernelMatchesSpec(op, e, input, flags);
  }

  /** The flag array of the test: index i is flagged when it is one of the boundaries. */
  function BoundaryFlags(boundaries: seq<nat>, n: nat): (f: seq<bool>)
    ensures |f| == n
  {
    seq(n, i requires 0 <= i < n => i in boundaries)
  }

  ghost predicate SortedNats(xs: seq<nat>)
  {
    forall i, j :: 0 <= i < j < |xs| ==> xs[i] <= xs[j]
  }

  /**
   * Within the host loop's segment idx (from starts[idx] to the next start,
   * or to n for the last), the segment start of every index is starts[idx].
   */
  lemma SegmentOfBoundaries(boundaries: seq<nat>, n: nat, idx: nat, p: nat)
    requires SortedNats(boundaries)
    requires forall i :: 0 <= i < |boundaries| ==> boundaries[i] < n
    requires idx <= |boundaries|
    requires ([0] + boundaries)[idx] <= p
    requires p < if idx < |boundaries| then boundaries[idx] else n
    ensures SegStart(BoundaryFlags(boundaries, n), p) == ([0] + boundaries)[idx]
  {
    var starts := [0] + boundaries;
    var flags := BoundaryFlags(boundaries, n);
    var b := starts[idx];
    forall k | b < k <= p
      ensures !flags[k]
    {
    }
    assert idx > 0 ==> b == boundaries[idx - 1] && flags[b];
  }

  /** The segmented `+` scan the host reference is compared with, exclusive or inclusive. */
  ghost function SegSums(s: seq<int>, flags: seq<bool>, exclusive: bool): (r: seq<int>)
    requires |flags| == |s|
    ensures |r| == |s|
  {
    if exclusive then SegExclusive(Add, 0, s, flags) else SegInclusive(Add, 0, s, flags)
  }

  /**
   * One iteration of the host loop: the cumulative sums of a[segStart..segEnd]
   * written from segStart on (inclusive), or 0 at segStart followed by the
   * cumulative sums of a[segStart..segEnd-1] (exclusive).
   */
  method FillSegment(result: array<int>, a: seq<int>, segStart: nat, segEnd: nat, exclusive: bool)
    requires segStart <= segEnd <= |a| == result.Length
    requires exclusive ==> segStart < |a|
    modifies result
    ensures forall p :: 0 <= p < segStart ==> result[p] == old(result[p])
    ensures forall p :: segStart <= p < segEnd ==>
      result[p] == if exclusive then Fold(Add, 0, a[segStart..p]) else Fold(Add, 0, a[segStart..p + 1])
    ensures exclusive ==> result[segStart] == 0
    ensures forall p :: segEnd <= p < result.Length && !(exclusive && p == segStart) ==> result[p] == old(result[p])
  {
    if exclusive {
      FillShiftedSums(result, a, segStart, segEnd);
      result[segStart] := 0;
      assert Fold(Add, 0, a[segStart..segStart]) == 0 by {
        assert a[segStart..segStart] == [];
      }
    } else {
      FillSums(result, a, segStart, segEnd);
    }
  }

  /** `result[segStart:segEnd] = cumsum(a[segStart:segEnd])`. */
  method FillSums(result: array<int>, a: seq<int>, segStart: nat, segEnd: nat)
    requires segStart <= segEnd <= |a| == result.Length
    modifies result
    ensures forall p :: 0 <= p < segStart ==> result[p] == old(result[p])
    ensures forall p :: segStart <= p < segEnd ==> result[p] == Fold(Add, 0, a[segStart..p + 1])
    ensures forall p :: segEnd <= p < result.Length ==> result[p] == old(result[p])
  {
    var acc := 0;
    for j := segStart to segEnd
      invariant acc == Fold(Add, 0, a[segStart..j])
      invariant forall p :: 0 <= p < segStart ==> result[p] == old(result[p])
      invariant forall p :: j <= p < result.Length ==> result[p] == old(result[p])
      invariant forall p :: segStart <= p < j ==> result[p] == Fold(Add, 0, a[segStart..p + 1])
    {
      assert a[segStart..j + 1][..j - segStart] == a[segStart..j];
      acc := acc + a[j];
      result[j] := acc;
    }
  }

  /** `result[segStart+1:segEnd] = cumsum(a[segStart:segEnd][:-1])`. */
  method FillShiftedSums(result: array<int>, a: seq<int>, segStart: nat, segEnd: nat)
    requires segStart <= segEnd <= |a| == result.Length
    modifies result
    ensures forall p :: 0 <= p <= segStart && p < result.Length ==> result[p] == old(result[p])
    ensures forall p :: segStart < p < segEnd ==> result[p] == Fold(Add, 0, a[segStart..p])
    ensures forall p :: segEnd <= p < result.Length ==> result[p] == old(result[p])
  {
    var acc := 0;
    for j := segStart + 1 to if segEnd < segStart + 1 then segStart + 1 else segEnd
      invariant acc == Fold(Add, 0, a[segStart..j - 1])
      invariant forall p :: 0 <= p <= segStart && p < result.Length ==> result[p] == old(result[p])
      invariant forall p :: segStart < p < j ==> result[p] == Fold(Add, 0, a[segStart..p])
      invariant forall p :: j <= p < result.Length ==> result[p] == old(result[p])
    {
      assert a[segStart..j][..j - 1 - segStart] == a[segStart..j - 1];
      acc := acc + a[j - 1];
      result[j] := acc;
    }
  }

  /**
   * The host loop's segment idx, filled as FillSegment promises, holds the
   * expected segmented result at each of its indices.
   */
  lemma SegmentFilled(r: seq<int>, s: seq<int>, boundaries: seq<nat>, exclusive: bool, idx: nat, segEnd: nat)
    requires |r| == |s|
    requires SortedNats(boundaries)
    requires forall i :: 0 <= i < |boundaries| ==> boundaries[i] < |s|
    requires idx <= |boundaries|
    requires segEnd == if idx < |boundaries| then boundaries[idx] else |s|
    requires forall p :: ([0] + boundaries)[idx] <= p < segEnd ==>
      r[p] == if exclusive then Fold(Add, 0, s[([0] + boundaries)[idx]..p]) else Fold(Add, 0, s[([0] + boundaries)[idx]..p + 1])
    ensures forall p :: ([0] + boundaries)[idx] <= p < segEnd ==> r[p] == SegSums(s, BoundaryFlags(boundaries, |s|), exclusive)[p]
  {
    forall p | ([0] + boundaries)[idx] <= p < segEnd
      ensures r[p] == SegSums(s, BoundaryFlags(boundaries, |s|), exclusive)[p]
    {
      var b := ([0] + boundaries)[idx];
      SegmentOfBoundaries(boundaries, |s|, idx, p);
      SegInclusiveAt(Add, 0, s, BoundaryFlags(boundaries, |s|), b, p - b);
      SegExclusiveAt(Add, 0, s, BoundaryFlags(boundaries, |s|), b, p - b);
    }
  }

  /**
   * The test's host reference: copy the input, then for each segment (the
   * sorted boundaries with 0 put in front; repeated boundaries give empty
   * segments) write the cumulative sums of the segment (inclusive), or 0 at
   * the segment start followed by the cumulative sums of all but the last
   * element (exclusive).  The exclusive branch writes index 0 even on an
   * empty input, so it needs a non-empty one.
   */
  method HostSegmentedReference(a: array<int>, boundaries: seq<nat>, exclusive: bool) returns (result: array<int>)
    requires SortedNats(boundaries)
    requires forall i :: 0 <= i < |boundaries| ==> boundaries[i] < a.Length
    requires exclusive ==> a.Length > 0
    ensures fresh(result) && result.Length == a.Length
    ensures !exclusive ==> result[..] == SegInclusive(Add, 0, a[..], BoundaryFlags(boundaries, a.Length))
    ensures exclusive ==> result[..] == SegExclusive(Add, 0, a[..], BoundaryFlags(boundaries, a.Length))
  {
    var n := a.Length;
    var s := a[..];
    result := new int[n];
    forall i | 0 <= i < n {
      result[i] := a[i];
    }
    var starts := [0] + boundaries;
    for idx := 0 to |starts|
      invariant forall p :: 0 <= p < (if idx < |starts| then starts[idx] else n) ==>
        result[p] == SegSums(s, BoundaryFlags(boundaries, n), exclusive)[p]
    {
      var segStart := starts[idx];
      var segEnd := if idx + 1 < |starts| then starts[idx + 1] else n;
      assert segStart <= segEnd && (exclusive ==> segStart < n) by {
        if idx > 0 && idx + 1 < |starts| {
          assert boundaries[idx - 1] <= boundaries[idx];
        }
      }
      FillSegment(result, s, segStart, segEnd, exclusive);
      SegmentFilled(result[..], s, boundaries, exclusive, idx, segEnd);
    }
    assert a[..] == s;
    assert result[..] == SegSums(s, BoundaryFlags(boundaries, n), exclusive);
  }
}
