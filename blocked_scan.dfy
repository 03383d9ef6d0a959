/**
 * The device scan is not sequential: it cuts the index range into blocks,
 * scans every block locally, scans the per-block totals (recursively, with the
 * same algorithm, when there are more blocks than one block holds), and then
 * combines each block's carried-in total into every local result.  This module
 * states that algorithm on sequences and proves that it computes the flat
 * scan for every associative operator with a neutral element, every input
 * length and every block size.  The test sizes deliberately straddle block
 * sizes (test/test_algorithm.py:471-488); here no size is special.
 */
module BlockedScan {
  import opened Scan

  /** Concatenation of a list of blocks, in order. */
  function Flatten<T>(bs: seq<seq<T>>): seq<T>
    decreases |bs|
  {
    if |bs| == 0 then [] else Flatten(bs[..|bs| - 1]) + bs[|bs| - 1]
  }

  lemma {:induction false} FlattenCons<T>(x: seq<T>, bs: seq<seq<T>>)
    ensures Flatten([x] + bs) == x + Flatten(bs)
    decreases |bs|
  {
    if |bs| > 0 {
      var init := bs[..|bs| - 1];
      assert ([x] + bs)[..|bs|] == [x] + init;
      FlattenCons(x, init);
    }
  }

  /**
   * The input cut into consecutive blocks of `size` elements; only the last
   * block may be shorter, and no block is empty.
   */
  function Blocks<T>(s: seq<T>, size: nat): (bs: seq<seq<T>>)
    requires size > 0
    ensures Flatten(bs) == s
    ensures forall k :: 0 <= k < |bs| ==> 0 < |bs[k]| <= size
    ensures forall k :: 0 <= k < |bs| - 1 ==> |bs[k]| == size
    ensures |s| <= size ==> |bs| <= 1
    decreases |s|
  {
    if |s| == 0 then []
    else if |s| <= size then
      assert Flatten([s]) == Flatten([s][..0]) + s;
      [s]
    else
      var rest := Blocks(s[size..], size);
      FlattenCons(s[..size], rest);
      assert s[..size] + s[size..] == s;
      [s[..size]] + rest
  }

  /** With blocks of two or more elements there are fewer blocks than elements. */
  lemma {:induction false} BlocksFewer<T>(s: seq<T>, size: nat)
    requires size >= 2 && |s| >= 2
    ensures |Blocks(s, size)| < |s|
    decreases |s|
  {
    if |s| > size && |s[size..]| >= 2 {
      BlocksFewer(s[size..], size);
    }
  }

  /** Phase 1: every block scanned on its own. */
  function LocalScans<T>(op: (T, T) -> T, e: T, bs: seq<seq<T>>): seq<seq<T>>
  {
    seq(|bs|, k requires 0 <= k < |bs| => Inclusive(op, e, bs[k]))
  }

  /** Phase 1, exclusive flavour: the value before each local element. */
  function LocalExclusiveScans<T>(op: (T, T) -> T, e: T, bs: seq<seq<T>>): seq<seq<T>>
  {
    seq(|bs|, k requires 0 <= k < |bs| => Exclusive(op, e, bs[k]))
  }

  /** Phase 2: the total of every block (the last local result). */
  function BlockSums<T>(op: (T, T) -> T, e: T, bs: seq<seq<T>>): (r: seq<T>)
    ensures |r| == |bs|
    ensures forall k :: 0 <= k < |bs| && |bs[k]| > 0 ==> r[k] == Inclusive(op, e, bs[k])[|bs[k]| - 1]
  {
    var r := seq(|bs|, k requires 0 <= k < |bs| => Fold(op, e, bs[k]));
    assert forall k :: 0 <= k < |bs| ==> bs[k][..|bs[k]|] == bs[k];
    r
  }

  /** Phase 4: combine each block's carried-in value into its local results. */
  function Propagate<T>(op: (T, T) -> T, carries: seq<T>, locals: seq<seq<T>>): seq<seq<T>>
    requires |carries| == |locals|
  {
    seq(|locals|, k requires 0 <= k < |locals| =>
      seq(|locals[k]|, j requires 0 <= j < |locals[k]| => op(carries[k], locals[k][j])))
  }

  /**
   * Two-level inclusive scan: local scans, an exclusive scan of the block
   * totals (phase 3, done flat here), propagation, concatenation.
   */
  function TwoLevelInclusive<T>(op: (T, T) -> T, e: T, bs: seq<seq<T>>): (r: seq<T>)
    ensures |r| == |Flatten(bs)|
  {
    PropagateLength(op, Exclusive(op, e, BlockSums(op, e, bs)), LocalScans(op, e, bs));
    FlattenSameShape(LocalScans(op, e, bs), bs);
    Flatten(Propagate(op, Exclusive(op, e, BlockSums(op, e, bs)), LocalScans(op, e, bs)))
  }

  /** Two-level exclusive scan: the same carries, the local exclusive values. */
  function TwoLevelExclusive<T>(op: (T, T) -> T, e: T, bs: seq<seq<T>>): (r: seq<T>)
    ensures |r| == |Flatten(bs)|
  {
    PropagateLength(op, Exclusive(op, e, BlockSums(op, e, bs)), LocalExclusiveScans(op, e, bs));
    FlattenSameShape(LocalExclusiveScans(op, e, bs), bs);
    Flatten(Propagate(op, Exclusive(op, e, BlockSums(op, e, bs)), LocalExclusiveScans(op, e, bs)))
  }

  /** Folding the block totals folds the whole input. */
  lemma {:induction false} FoldBlockSums<T(!new)>(op: (T, T) -> T, e: T, bs: seq<seq<T>>)
    requires Associative(op) && IsNeutral(op, e)
    ensures Fold(op, e, BlockSums(op, e, bs)) == Fold(op, e, Flatten(bs))
    decreases |bs|
  {
    if |bs| > 0 {
      var init := bs[..|bs| - 1];
      var sums := BlockSums(op, e, bs);
      FoldBlockSums(op, e, init);
      assert sums[..|sums| - 1] == BlockSums(op, e, init);
      FoldConcat(op, e, Flatten(init), bs[|bs| - 1]);
      calc {
        Fold(op, e, sums);
        op(Fold(op, e, BlockSums(op, e, init)), sums[|sums| - 1]);
        op(Fold(op, e, Flatten(init)), Fold(op, e, bs[|bs| - 1]));
        Fold(op, e, Flatten(init) + bs[|bs| - 1]);
      }
    }
  }

  /**
   * The carry of block k (phase 3's output) is the combine of everything
   * before the block, and adding a block at the end keeps earlier carries.
   */
  lemma Carries<T(!new)>(op: (T, T) -> T, e: T, bs: seq<seq<T>>)
    requires Associative(op) && IsNeutral(op, e) && |bs| > 0
    ensures var init := bs[..|bs| - 1];
      && Exclusive(op, e, BlockSums(op, e, bs))[..|init|] == Exclusive(op, e, BlockSums(op, e, init))
      && Exclusive(op, e, BlockSums(op, e, bs))[|init|] == Fold(op, e, Flatten(init))
  {
    var init := bs[..|bs| - 1];
    var sums := BlockSums(op, e, bs);
    var sumsInit := BlockSums(op, e, init);
    var c := Exclusive(op, e, sums);
    var cInit := Exclusive(op, e, sumsInit);
    forall k | 0 <= k < |init|
      ensures c[k] == cInit[k]
    {
      assert sums[..k] == sumsInit[..k];
    }
    assert c[..|init|] == cInit;
    assert sums[..|init|] == sumsInit;
    FoldBlockSums(op, e, init);
  }

  /** The blocked inclusive scan equals the flat inclusive scan. */
  lemma {:induction false} TwoLevelInclusiveCorrect<T(!new)>(op: (T, T) -> T, e: T, bs: seq<seq<T>>)
    requires Associative(op) && IsNeutral(op, e)
    ensures TwoLevelInclusive(op, e, bs) == Inclusive(op, e, Flatten(bs))
    decreases |bs|
  {
    if |bs| > 0 {
      var init := bs[..|bs| - 1];
      var last := bs[|bs| - 1];
      TwoLevelInclusiveCorrect(op, e, init);
      Carries(op, e, bs);
      var carries := Exclusive(op, e, BlockSums(op, e, bs));
      var p := Propagate(op, carries, LocalScans(op, e, bs));
      assert p[..|init|] == Propagate(op, Exclusive(op, e, BlockSums(op, e, init)), LocalScans(op, e, init));
      InclusiveConcat(op, e, Flatten(init), last);
    }
  }

  /** The exclusive counterpart of `InclusiveConcat`. */
  lemma ExclusiveConcat<T(!new)>(op: (T, T) -> T, e: T, a: seq<T>, b: seq<T>)
    requires Associative(op) && IsNeutral(op, e)
    ensures Exclusive(op, e, a + b)
         == Exclusive(op, e, a) + seq(|b|, j requires 0 <= j < |b| => op(Fold(op, e, a), Exclusive(op, e, b)[j]))
  {
    var lhs := Exclusive(op, e, a + b);
    var rhs := Exclusive(op, e, a) + seq(|b|, j requires 0 <= j < |b| => op(Fold(op, e, a), Exclusive(op, e, b)[j]));
    forall i | 0 <= i < |a + b|
      ensures lhs[i] == rhs[i]
    {
      if i < |a| {
        assert (a + b)[..i] == a[..i];
      } else {
        var j := i - |a|;
        assert (a + b)[..i] == a + b[..j];
        FoldConcat(op, e, a, b[..j]);
        assert lhs[i] == Fold(op, e, a + b[..j]);
        assert rhs[i] == op(Fold(op, e, a), Exclusive(op, e, b)[j]);
      }
    }
  }

  /** The blocked exclusive scan equals the flat exclusive scan. */
  lemma {:induction false} TwoLevelExclusiveCorrect<T(!new)>(op: (T, T) -> T, e: T, bs: seq<seq<T>>)
    requires Associative(op) && IsNeutral(op, e)
    ensures TwoLevelExclusive(op, e, bs) == Exclusive(op, e, Flatten(bs))
    decreases |bs|
  {
    if |bs| > 0 {
      var init := bs[..|bs| - 1];
      var last := bs[|bs| - 1];
      TwoLevelExclusiveCorrect(op, e, init);
      Carries(op, e, bs);
      var carries := Exclusive(op, e, BlockSums(op, e, bs));
      var p := Propagate(op, carries, LocalExclusiveScans(op, e, bs));
      assert p[..|init|] == Propagate(op, Exclusive(op, e, BlockSums(op, e, init)), LocalExclusiveScans(op, e, init));
      ExclusiveConcat(op, e, Flatten(init), last);
    }
  }

  /** Every block size gives the flat result, inclusive and exclusive. */
  lemma BlockedScanCorrect<T(!new)>(op: (T, T) -> T, e: T, s: seq<T>, size: nat)
    requires Associative(op) && IsNeutral(op, e) && size > 0
    ensures TwoLevelInclusive(op, e, Blocks(s, size)) == Inclusive(op, e, s)
    ensures TwoLevelExclusive(op, e, Blocks(s, size)) == Exclusive(op, e, s)
  {
    TwoLevelInclusiveCorrect(op, e, Blocks(s, size));
    TwoLevelExclusiveCorrect(op, e, Blocks(s, size));
  }

  lemma {:induction false} PropagateLength<T>(op: (T, T) -> T, carries: seq<T>, bs: seq<seq<T>>)
    requires |carries| == |bs|
    ensures |Flatten(Propagate(op, carries, bs))| == |Flatten(bs)|
    decreases |bs|
  {
    if |bs| > 0 {
      var init := bs[..|bs| - 1];
      assert Propagate(op, carries, bs)[..|init|] == Propagate(op, carries[..|init|], init);
      PropagateLength(op, carries[..|init|], init);
    }
  }

  /**
   * The multi-level scan: when the input fits one block it is scanned
   * locally; otherwise the block totals are scanned by the same algorithm
   * (the totals are fewer than the inputs, so the recursion ends), shifted by
   * one to become the carries, and propagated.
   */
  function MultiLevelInclusive<T>(op: (T, T) -> T, e: T, s: seq<T>, size: nat): (r: seq<T>)
    requires size >= 2
    ensures |r| == |s|
    decreases |s|
  {
    if |s| <= size then Inclusive(op, e, s)
    else
      var bs := Blocks(s, size);
      BlocksFewer(s, size);
      var locals := LocalScans(op, e, bs);
      var scanned := MultiLevelInclusive(op, e, BlockSums(op, e, bs), size);
      var carries := ShiftRight(e, scanned);
      PropagateLength(op, carries, locals);
      FlattenSameShape(locals, bs);
      Flatten(Propagate(op, carries, locals))
  }

  /** The identity followed by all but the last element: how the scanned totals become carries. */
  function ShiftRight<T>(e: T, s: seq<T>): (r: seq<T>)
    ensures |r| == |s|
  {
    seq(|s|, k requires 0 <= k < |s| => if k == 0 then e else s[k - 1])
  }

  /** Shifting the inclusive scan right by one, starting from the identity, gives the exclusive scan. */
  lemma ShiftedScanIsExclusive<T>(op: (T, T) -> T, e: T, s: seq<T>)
    ensures ShiftRight(e, Inclusive(op, e, s)) == Exclusive(op, e, s)
  {
    ExclusiveIsShiftedInclusive(op, e, s);
  }

  lemma {:induction false} FlattenSameShape<T>(xs: seq<seq<T>>, ys: seq<seq<T>>)
    requires |xs| == |ys|
    requires forall k :: 0 <= k < |xs| ==> |xs[k]| == |ys[k]|
    ensures |Flatten(xs)| == |Flatten(ys)|
    decreases |xs|
  {
    if |xs| > 0 {
      FlattenSameShape(xs[..|xs| - 1], ys[..|ys| - 1]);
    }
  }

  /** The multi-level scan equals the flat scan, at every depth of recursion. */
  lemma {:induction false} MultiLevelCorrect<T(!new)>(op: (T, T) -> T, e: T, s: seq<T>, size: nat)
    requires Associative(op) && IsNeutral(op, e) && size >= 2
    ensures MultiLevelInclusive(op, e, s, size) == Inclusive(op, e, s)
    decreases |s|
  {
    if |s| > size {
      var bs := Blocks(s, size);
      BlocksFewer(s, size);
      var sums := BlockSums(op, e, bs);
      MultiLevelCorrect(op, e, sums, size);
      ShiftedScanIsExclusive(op, e, sums);
      TwoLevelInclusiveCorrect(op, e, bs);
    }
  }

  /** Under the combine `b` the local scan of a block is the block, and propagation discards every carry. */
  lemma RightLocalsAreBlocks<T>(e: T, carries: seq<T>, bs: seq<seq<T>>)
    requires |carries| == |bs|
    ensures Propagate(Right, carries, LocalScans(Right, e, bs)) == bs
  {
    forall k | 0 <= k < |bs|
      ensures Propagate(Right, carries, LocalScans(Right, e, bs))[k] == bs[k]
    {
      var locals := LocalScans(Right, e, bs);
      RightScanPreserves(e, bs[k]);
      assert locals[k] == bs[k];
      var pk := Propagate(Right, carries, locals)[k];
      forall j | 0 <= j < |bs[k]|
        ensures pk[j] == bs[k][j]
      {
        assert pk[j] == Right(carries[k], locals[k][j]);
      }
    }
  }

  /**
   * The combine `b` needs no two-sided identity: for every block size the
   * two-level scan, and the multi-level scan at every depth, give back their
   * input, blocks straddled or not.
   */
  lemma BlockedRight<T>(e: T, s: seq<T>, size: nat)
    requires size > 0
    ensures TwoLevelInclusive(Right, e, Blocks(s, size)) == s
  {
    var bs := Blocks(s, size);
    RightLocalsAreBlocks(e, Exclusive(Right, e, BlockSums(Right, e, bs)), bs);
  }

  lemma MultiLevelRight<T>(e: T, s: seq<T>, size: nat)
    requires size >= 2
    ensures MultiLevelInclusive(Right, e, s, size) == s
  {
    if |s| <= size {
      RightScanPreserves(e, s);
    } else {
      var bs := Blocks(s, size);
      BlocksFewer(s, size);
      var scanned := MultiLevelInclusive(Right, e, BlockSums(Right, e, bs), size);
      RightLocalsAreBlocks(e, ShiftRight(e, scanned), bs);
    }
  }

  /**
   * Index preservation on the blocked engine: scanning `i` under `b` / `0`
   * writes `i` at every index, for every length and block size.
   */
  lemma BlockedIndexPreservation(n: nat, size: nat)
    requires size >= 2
    ensures forall i :: 0 <= i < n ==> TwoLevelInclusive(Right, 0, Blocks(Iota(n), size))[i] == i
    ensures forall i :: 0 <= i < n ==> MultiLevelInclusive(Right, 0, Iota(n), size)[i] == i
  {
    BlockedRight(0, Iota(n), size);
    MultiLevelRight(0, Iota(n), size);
  }

  /**
   * The `a+b` / `0` scans on the blocked engine, for every block size: the
   * inclusive output is the cumulative sum, the exclusive output the
   * cumulative sum minus the element.
   */
  lemma BlockedCumSum(s: seq<int>, size: nat)
    requires size >= 2
    ensures TwoLevelInclusive(Add, 0, Blocks(s, size)) == CumSum(s)
    ensures MultiLevelInclusive(Add, 0, s, size) == CumSum(s)
    ensures forall i :: 0 <= i < |s| ==> TwoLevelExclusive(Add, 0, Blocks(s, size))[i] == CumSum(s)[i] - s[i]
  {
    AddIsMonoid();
    BlockedScanCorrect(Add, 0, s, size);
    MultiLevelCorrect(Add, 0, s, size);
    SumScans(s);
  }
}
