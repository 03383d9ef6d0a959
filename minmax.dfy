/**
 * A reduction over a record type: the minimum and the maximum of a sequence
 * of integers, collected in one pass.
 *
 * The record holds the current minimum and maximum.  Every input element is
 * mapped to the record holding it as both, the records are combined by
 * keeping the smaller minimum and the larger maximum, and the reduction
 * starts from a neutral record holding 2^30 as minimum and -2^30 as maximum.
 * That record is a true identity only for records within those bounds, so
 * the result is the minimum and maximum of the input clamped by them.
 */
module MinMaxReduction {
  import opened Scan

  datatype MinMax = MinMax(curMin: int, curMax: int)

  /** The neutral record: minimum 1 << 30, maximum -(1 << 30). */
  const Neutral: MinMax := MinMax(0x4000_0000, -0x4000_0000)

  /** The record of one input element. */
  function FromScalar(x: int): (r: MinMax)
    ensures r.curMin == x && r.curMax == x
  {
    MinMax(x, x)
  }

  /** Start from `a`; take `b`'s minimum if smaller and `b`'s maximum if larger. */
  function Agg(a: MinMax, b: MinMax): (r: MinMax)
    ensures r.curMin <= a.curMin && r.curMin <= b.curMin && (r.curMin == a.curMin || r.curMin == b.curMin)
    ensures r.curMax >= a.curMax && r.curMax >= b.curMax && (r.curMax == a.curMax || r.curMax == b.curMax)
  {
    var withMin := if b.curMin < a.curMin then a.(curMin := b.curMin) else a;
    if b.curMax > withMin.curMax then withMin.(curMax := b.curMax) else withMin
  }

  /** The map stage: every input element becomes its record. */
  function MapScalars(xs: seq<int>): (r: seq<MinMax>)
    ensures |r| == |xs|
  {
    seq(|xs|, i requires 0 <= i < |xs| => FromScalar(xs[i]))
  }

  /** The reduction, folded left to right from the neutral record. */
  function Reduce(xs: seq<int>): MinMax
  {
    Fold(Agg, Neutral, MapScalars(xs))
  }

  /** The combine may be regrouped, as the parallel reduction does. */
  lemma AggAssociative()
    ensures Associative(Agg)
  {
    forall x: MinMax, y: MinMax, z: MinMax
      ensures Agg(Agg(x, y), z) == Agg(x, Agg(y, z))
    {
    }
  }

  /**
   * The neutral record is an identity exactly for records within its
   * bounds; above 2^30 or below -2^30 it wins.
   */
  lemma NeutralWithinBounds(m: MinMax)
    ensures Agg(Neutral, m) == m <==> m.curMin <= 0x4000_0000 && m.curMax >= -0x4000_0000
    ensures Agg(m, Neutral) == m <==> m.curMin <= 0x4000_0000 && m.curMax >= -0x4000_0000
  {
  }

  /**
   * For every input, the reduced minimum is at most every element and at
   * most 2^30, and it is either 2^30 or an element; symmetrically for the
   * maximum.  The empty input yields the neutral record.
   */
  lemma {:induction false} ReduceBounds(xs: seq<int>)
    ensures forall i :: 0 <= i < |xs| ==> Reduce(xs).curMin <= xs[i] <= Reduce(xs).curMax
    ensures Reduce(xs).curMin <= 0x4000_0000 && Reduce(xs).curMax >= -0x4000_0000
    ensures Reduce(xs).curMin == 0x4000_0000 || exists i :: 0 <= i < |xs| && xs[i] == Reduce(xs).curMin
    ensures Reduce(xs).curMax == -0x4000_0000 || exists i :: 0 <= i < |xs| && xs[i] == Reduce(xs).curMax
    ensures |xs| == 0 ==> Reduce(xs) == Neutral
    decreases |xs|
  {
    if |xs| > 0 {
      var n := |xs|;
      var init := xs[..n - 1];
      assert MapScalars(xs)[..n - 1] == MapScalars(init);
      assert Reduce(xs) == Agg(Reduce(init), FromScalar(xs[n - 1]));
      ReduceBounds(init);
      forall i | 0 <= i < n - 1
        ensures xs[i] == init[i]
      {
      }
    }
  }

  /**
   * When every element lies within the neutral record's bounds and there is
   * at least one, the reduction is exactly the minimum and the maximum of the
   * input: an element that every element is at least, and one that every
   * element is at most.
   */
  lemma ReduceIsMinMax(xs: seq<int>)
    requires |xs| > 0
    requires forall i :: 0 <= i < |xs| ==> -0x4000_0000 <= xs[i] <= 0x4000_0000
    ensures exists i :: 0 <= i < |xs| && xs[i] == Reduce(xs).curMin
    ensures exists j :: 0 <= j < |xs| && xs[j] == Reduce(xs).curMax
    ensures forall i :: 0 <= i < |xs| ==> Reduce(xs).curMin <= xs[i] <= Reduce(xs).curMax
  {
    ReduceBounds(xs);
    if Reduce(xs).curMin == 0x4000_0000 {
      assert xs[0] == Reduce(xs).curMin;
    }
    if Reduce(xs).curMax == -0x4000_0000 {
      assert xs[0] == Reduce(xs).curMax;
    }
  }

  /**
   * Reducing two halves separately, each from the neutral record, and
   * combining the results gives the reduction of the whole: the basis of
   * the blocked parallel reduction, even though the neutral record is not a
   * true identity.
   */
  lemma ReduceSplit(xs: seq<int>, ys: seq<int>)
    ensures Reduce(xs + ys) == Agg(Reduce(xs), Reduce(ys))
  {
    AggAssociative();
    var a, b := MapScalars(xs), MapScalars(ys);
    assert MapScalars(xs + ys) == a + b;
    FoldFrom(a, b);
  }

  /** Folding b onto the reduction of a is combining a's result with b's own reduction. */
  lemma {:induction false} FoldFrom(a: seq<MinMax>, b: seq<MinMax>)
    ensures Fold(Agg, Neutral, a + b) == Agg(Fold(Agg, Neutral, a), Fold(Agg, Neutral, b))
    decreases |b|
  {
    if |b| == 0 {
      assert a + b == a;
      NeutralAbsorbed(Fold(Agg, Neutral, a), a);
    } else {
      var b' := b[..|b| - 1];
      assert (a + b)[..|a + b| - 1] == a + b';
      FoldFrom(a, b');
      AggAssociative();
    }
  }

  /** A fold from the neutral record is within its bounds, so combining the neutral record again changes nothing. */
  lemma {:induction false} NeutralAbsorbed(m: MinMax, s: seq<MinMax>)
    requires m == Fold(Agg, Neutral, s)
    ensures Agg(m, Neutral) == m
    decreases |s|
  {
    if |s| > 0 {
      NeutralAbsorbed(Fold(Agg, Neutral, s[..|s| - 1]), s[..|s| - 1]);
    }
  }
}
