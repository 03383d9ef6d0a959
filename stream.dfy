/**
 * Stream primitives built from one exclusive scan and one scatter: copy_if,
 * partition and unique.  Each computes a 0/1 flag per element, takes the
 * exclusive prefix sum of the flags (which gives every kept element its
 * destination index) and then writes each kept element there.  The scan's
 * final inclusive value is the number of kept elements.
 */
module StreamPrimitives {
  import opened Scan

  /** The order-preserving selection of the elements satisfying `p` (numpy's `a[mask]`). */
  function Filter<T>(p: T -> bool, s: seq<T>): (r: seq<T>)
    ensures |r| <= |s|
    decreases |s|
  {
    if |s| == 0 then [] else Filter(p, s[..|s| - 1]) + (if p(s[|s| - 1]) then [s[|s| - 1]] else [])
  }

  function Not<T>(p: T -> bool): T -> bool
  {
    x => !p(x)
  }

  /** The scan input of copy_if: 1 where the predicate holds, else 0. */
  function Flags<T>(p: T -> bool, s: seq<T>): (r: seq<int>)
    ensures |r| == |s|
  {
    seq(|s|, i requires 0 <= i < |s| => if p(s[i]) then 1 else 0)
  }

  /** A selection keeps exactly the elements of the input satisfying the predicate. */
  lemma {:induction false} FilterMembers<T>(p: T -> bool, s: seq<T>)
    ensures forall x :: x in Filter(p, s) ==> p(x) && x in s
    ensures forall x :: x in s && p(x) ==> x in Filter(p, s)
    decreases |s|
  {
    if |s| > 0 {
      var init := s[..|s| - 1];
      FilterMembers(p, init);
      assert s == init + [s[|s| - 1]];
    }
  }

  /**
   * The two selections by `p` and by its negation together are a permutation
   * of the input.
   */
  lemma {:induction false} FilterSplits<T>(p: T -> bool, s: seq<T>)
    ensures multiset(Filter(p, s)) + multiset(Filter(Not(p), s)) == multiset(s)
    decreases |s|
  {
    if |s| > 0 {
      var init, last := s[..|s| - 1], s[|s| - 1];
      FilterSplits(p, init);
      assert s == init + [last];
      assert Not(p)(last) == !p(last);
    }
  }

  /** The selections by `p` and by its negation together have the input's length. */
  lemma {:induction false} FilterLengths<T>(p: T -> bool, s: seq<T>)
    ensures |Filter(p, s)| + |Filter(Not(p), s)| == |s|
    decreases |s|
  {
    if |s| > 0 {
      FilterLengths(p, s[..|s| - 1]);
    }
  }

  lemma FilterStep<T>(p: T -> bool, s: seq<T>, i: nat)
    requires i < |s|
    ensures Filter(p, s[..i + 1]) == Filter(p, s[..i]) + if p(s[i]) then [s[i]] else []
  {
    assert s[..i + 1][..i] == s[..i];
  }

  /** Prefix sums of the flags count the selected elements before each index. */
  lemma {:induction false} FlagScanCounts<T>(p: T -> bool, s: seq<T>, i: nat)
    requires i <= |s|
    ensures Fold(Add, 0, Flags(p, s)[..i]) == |Filter(p, s[..i])|
    decreases i
  {
    if i > 0 {
      FlagScanCounts(p, s, i - 1);
      assert Flags(p, s)[..i][..i - 1] == Flags(p, s)[..i - 1];
      assert s[..i][..i - 1] == s[..i - 1];
    }
  }

  /**
   * The scatter pass of copy_if: every selected element goes to the index its
   * exclusive flag scan assigned it.
   */
  method ScatterSelected<T>(a: array<T>, p: T -> bool, offsets: array<int>, out: array<T>)
    requires offsets.Length == out.Length == a.Length && out != a && out != offsets
    requires forall i :: 0 <= i < a.Length ==> offsets[i] == |Filter(p, a[..i])|
    modifies out
    ensures out[..|Filter(p, a[..])|] == Filter(p, a[..])
    ensures forall k :: |Filter(p, a[..])| <= k < out.Length ==> out[k] == old(out[k])
  {
    for i := 0 to a.Length
      invariant forall k :: 0 <= k < |Filter(p, a[..i])| ==> out[k] == Filter(p, a[..i])[k]
      invariant forall k :: |Filter(p, a[..i])| <= k < out.Length ==> out[k] == old(out[k])
    {
      FilterStep(p, a[..], i);
      assert a[..][..i] == a[..i] && a[..][..i + 1] == a[..i + 1];
      if p(a[i]) {
        out[offsets[i]] := a[i];
      }
    }
    assert a[..a.Length] == a[..];
  }

  /**
   * copy_if: the first `count` outputs are the selection of the elements
   * satisfying the predicate, in order; `count` is its length.
   */
  method CopyIf<T(0)>(a: array<T>, p: T -> bool) returns (out: array<T>, count: nat)
    ensures fresh(out) && out.Length == a.Length
    ensures count == |Filter(p, a[..])|
    ensures out[..count] == Filter(p, a[..])
  {
    var n := a.Length;
    ghost var s := a[..];
    var offsets := SelectFlags(a, p);
    var total := ExclusiveScanInPlace(offsets, Add, 0);
    assert a[..] == s;
    forall i | 0 <= i < n
      ensures offsets[i] == |Filter(p, s[..i])|
    {
      FlagScanCounts(p, s, i);
    }
    FlagScanCounts(p, s, n);
    assert s[..n] == s;
    out := new T[n];
    ScatterSelected(a, p, offsets, out);
    count := total;
  }

  /** The flag pass of copy_if: 1 where the predicate holds, else 0. */
  method SelectFlags<T>(a: array<T>, p: T -> bool) returns (flags: array<int>)
    ensures fresh(flags) && flags[..] == Flags(p, a[..])
  {
    flags := new int[a.Length];
    for i := 0 to a.Length
      invariant forall k :: 0 <= k < i ==> flags[k] == Flags(p, a[..])[k]
    {
      flags[i] := if p(a[i]) then 1 else 0;
    }
  }

  /** A pair of running counts: elements with the predicate true, and false. */
  datatype Counts = Counts(t: int, f: int)

  /** The record combine of partition: both counts added field-wise. */
  function AddCounts(x: Counts, y: Counts): Counts
  {
    Counts(x.t + y.t, x.f + y.f)
  }

  /** The scan input of partition: (1, 0) where the predicate holds, else (0, 1). */
  function CountFlags<T>(p: T -> bool, s: seq<T>): (r: seq<Counts>)
    ensures |r| == |s|
  {
    seq(|s|, i requires 0 <= i < |s| => if p(s[i]) then Counts(1, 0) else Counts(0, 1))
  }

  /** The record scan counts the true and the false elements before each index. */
  lemma {:induction false} CountScan<T>(p: T -> bool, s: seq<T>, i: nat)
    requires i <= |s|
    ensures Fold(AddCounts, Counts(0, 0), CountFlags(p, s)[..i]) == Counts(|Filter(p, s[..i])|, |Filter(Not(p), s[..i])|)
    decreases i
  {
    if i > 0 {
      CountScan(p, s, i - 1);
      assert CountFlags(p, s)[..i][..i - 1] == CountFlags(p, s)[..i - 1];
      assert s[..i][..i - 1] == s[..i - 1];
    }
  }

  /** The exclusive count scan gives every element its destinations in both outputs. */
  lemma CountOffsets<T>(p: T -> bool, s: seq<T>, offsets: seq<Counts>)
    requires offsets == Exclusive(AddCounts, Counts(0, 0), CountFlags(p, s))
    ensures forall i :: 0 <= i < |s| ==> offsets[i] == Counts(|Filter(p, s[..i])|, |Filter(Not(p), s[..i])|)
  {
    forall i | 0 <= i < |s|
      ensures offsets[i] == Counts(|Filter(p, s[..i])|, |Filter(Not(p), s[..i])|)
    {
      CountScan(p, s, i);
    }
  }

  /** The count scan's total is the size of both parts, which together are the whole input. */
  lemma CountTotal<T>(p: T -> bool, s: seq<T>, total: Counts)
    requires total == Fold(AddCounts, Counts(0, 0), CountFlags(p, s))
    ensures total == Counts(|Filter(p, s)|, |Filter(Not(p), s)|)
    ensures total.t + total.f == |s|
  {
    CountScan(p, s, |s|);
    assert s[..|s|] == s;
    assert CountFlags(p, s)[..|s|] == CountFlags(p, s);
    FilterLengths(p, s);
  }

  /**
   * The scatter pass of partition: each element goes to the true or the false
   * output at the index its own count scan assigned it.
   */
  method ScatterPartition<T>(a: array<T>, p: T -> bool, offsets: array<Counts>, trueOut: array<T>, falseOut: array<T>)
    requires offsets.Length == trueOut.Length == falseOut.Length == a.Length
    requires trueOut != a && falseOut != a && trueOut != falseOut && offsets != trueOut && offsets != falseOut
    requires forall i :: 0 <= i < a.Length ==> offsets[i] == Counts(|Filter(p, a[..i])|, |Filter(Not(p), a[..i])|)
    modifies trueOut, falseOut
    ensures trueOut[..|Filter(p, a[..])|] == Filter(p, a[..])
    ensures falseOut[..|Filter(Not(p), a[..])|] == Filter(Not(p), a[..])
    ensures forall k :: |Filter(p, a[..])| <= k < trueOut.Length ==> trueOut[k] == old(trueOut[k])
    ensures forall k :: |Filter(Not(p), a[..])| <= k < falseOut.Length ==> falseOut[k] == old(falseOut[k])
  {
    for i := 0 to a.Length
      invariant forall k :: 0 <= k < |Filter(p, a[..i])| ==> trueOut[k] == Filter(p, a[..i])[k]
      invariant forall k :: 0 <= k < |Filter(Not(p), a[..i])| ==> falseOut[k] == Filter(Not(p), a[..i])[k]
      invariant forall k :: |Filter(p, a[..i])| <= k < trueOut.Length ==> trueOut[k] == old(trueOut[k])
      invariant forall k :: |Filter(Not(p), a[..i])| <= k < falseOut.Length ==> falseOut[k] == old(falseOut[k])
    {
      FilterStep(p, a[..], i);
      FilterStep(Not(p), a[..], i);
      assert a[..][..i] == a[..i] && a[..][..i + 1] == a[..i + 1];
      assert Not(p)(a[i]) == !p(a[i]);
      if p(a[i]) {
        trueOut[offsets[i].t] := a[i];
      } else {
        falseOut[offsets[i].f] := a[i];
      }
    }
    assert a[..a.Length] == a[..];
  }

  /**
   * partition: a stable split.  The first `countTrue` entries of the true
   * part are the elements satisfying the predicate, the first
   * `n - countTrue` entries of the false part are the others, both in input
   * order.
   */
  method Partition<T(0)>(a: array<T>, p: T -> bool) returns (trueOut: array<T>, falseOut: array<T>, countTrue: nat)
    ensures fresh(trueOut) && fresh(falseOut) && trueOut.Length == falseOut.Length == a.Length
    ensures countTrue == |Filter(p, a[..])| <= a.Length
    ensures trueOut[..countTrue] == Filter(p, a[..])
    ensures falseOut[..a.Length - countTrue] == Filter(Not(p), a[..])
  {
    var offsets, total := PartitionOffsets(a, p);
    trueOut := new T[a.Length];
    falseOut := new T[a.Length];
    ScatterPartition(a, p, offsets, trueOut, falseOut);
    countTrue := total.t;
  }

  /**
   * The flag and scan passes of partition: every element's destinations in
   * the true and the false output, and the sizes of both.
   */
  method PartitionOffsets<T>(a: array<T>, p: T -> bool) returns (offsets: array<Counts>, total: Counts)
    ensures fresh(offsets) && offsets.Length == a.Length
    ensures forall i :: 0 <= i < a.Length ==> offsets[i] == Counts(|Filter(p, a[..i])|, |Filter(Not(p), a[..i])|)
    ensures total == Counts(|Filter(p, a[..])|, |Filter(Not(p), a[..])|) && total.t + total.f == a.Length
  {
    ghost var s := a[..];
    offsets := PartitionFlags(a, p);
    total := ExclusiveScanInPlace(offsets, AddCounts, Counts(0, 0));
    assert a[..] == s;
    CountOffsets(p, s, offsets[..]);
    CountTotal(p, s, total);
  }

  /** The flag pass of partition: (1, 0) where the predicate holds, else (0, 1). */
  method PartitionFlags<T>(a: array<T>, p: T -> bool) returns (flags: array<Counts>)
    ensures fresh(flags) && flags[..] == CountFlags(p, a[..])
  {
    flags := new Counts[a.Length](_ => Counts(0, 0));
    for i := 0 to a.Length
      invariant forall k :: 0 <= k < i ==> flags[k] == CountFlags(p, a[..])[k]
    {
      flags[i] := if p(a[i]) then Counts(1, 0) else Counts(0, 1);
    }
  }

  /** One element per run of equal neighbours, in order. */
  function Dedup<T(==)>(s: seq<T>): (r: seq<T>)
    ensures |r| <= |s|
    decreases |s|
  {
    if |s| == 0 then []
    else if |s| == 1 || s[|s| - 1] != s[|s| - 2] then Dedup(s[..|s| - 1]) + [s[|s| - 1]]
    else Dedup(s[..|s| - 1])
  }

  /** The scan input of unique: 1 where a run begins, else 0. */
  function RunStarts<T(==)>(s: seq<T>): (r: seq<int>)
    ensures |r| == |s|
  {
    seq(|s|, i requires 0 <= i < |s| => if i == 0 || s[i] != s[i - 1] then 1 else 0)
  }

  lemma DedupStep<T>(s: seq<T>, i: nat)
    requires i < |s|
    ensures Dedup(s[..i + 1]) == Dedup(s[..i]) + if i == 0 || s[i] != s[i - 1] then [s[i]] else []
  {
    assert s[..i + 1][..i] == s[..i];
  }

  lemma {:induction false} RunScanCounts<T>(s: seq<T>, i: nat)
    requires i <= |s|
    ensures Fold(Add, 0, RunStarts(s)[..i]) == |Dedup(s[..i])|
    decreases i
  {
    if i > 0 {
      RunScanCounts(s, i - 1);
      assert RunStarts(s)[..i][..i - 1] == RunStarts(s)[..i - 1];
      assert s[..i][..i - 1] == s[..i - 1];
    }
  }

  /** Dedup of a non-empty input ends with the input's last element. */
  lemma DedupLast<T>(s: seq<T>)
    requires |s| > 0
    ensures |Dedup(s)| > 0 && Dedup(s)[|Dedup(s)| - 1] == s[|s| - 1]
  {
  }

  /** The scatter pass of unique: the first element of every run goes to its scanned index. */
  method ScatterRunStarts<T(==)>(a: array<T>, offsets: array<int>, out: array<T>)
    requires offsets.Length == out.Length == a.Length && out != a && out != offsets
    requires forall i :: 0 <= i < a.Length ==> offsets[i] == |Dedup(a[..i])|
    modifies out
    ensures out[..|Dedup(a[..])|] == Dedup(a[..])
    ensures forall k :: |Dedup(a[..])| <= k < out.Length ==> out[k] == old(out[k])
  {
    for i := 0 to a.Length
      invariant forall k :: 0 <= k < |Dedup(a[..i])| ==> out[k] == Dedup(a[..i])[k]
      invariant forall k :: |Dedup(a[..i])| <= k < out.Length ==> out[k] == old(out[k])
    {
      DedupStep(a[..], i);
      assert a[..][..i] == a[..i] && a[..][..i + 1] == a[..i + 1];
      if i == 0 || a[i] != a[i - 1] {
        out[offsets[i]] := a[i];
      }
    }
    assert a[..a.Length] == a[..];
  }

  /**
   * unique: the first `count` outputs are the first element of every run of
   * equal neighbours, in order; `count` is the number of runs.
   */
  method Unique<T(0,==)>(a: array<T>) returns (out: array<T>, count: nat)
    ensures fresh(out) && out.Length == a.Length
    ensures count == |Dedup(a[..])|
    ensures out[..count] == Dedup(a[..])
  {
    var n := a.Length;
    ghost var s := a[..];
    var offsets := RunStartFlags(a);
    var total := ExclusiveScanInPlace(offsets, Add, 0);
    assert a[..] == s;
    forall i | 0 <= i < n
      ensures offsets[i] == |Dedup(s[..i])|
    {
      RunScanCounts(s, i);
    }
    RunScanCounts(s, n);
    assert s[..n] == s;
    out := new T[n];
    ScatterRunStarts(a, offsets, out);
    count := total;
  }

  /** The flag pass of unique: 1 where a run of equal neighbours starts, else 0. */
  method RunStartFlags<T(==)>(a: array<T>) returns (flags: array<int>)
    ensures fresh(flags) && flags[..] == RunStarts(a[..])
  {
    flags := new int[a.Length];
    for i := 0 to a.Length
      invariant forall k :: 0 <= k < i ==> flags[k] == RunStarts(a[..])[k]
    {
      flags[i] := if i == 0 || a[i] != a[i - 1] then 1 else 0;
    }
  }

  ghost predicate Sorted(s: seq<int>)
  {
    forall i, j :: 0 <= i < j < |s| ==> s[i] <= s[j]
  }

  ghost predicate StrictlyIncreasing(s: seq<int>)
  {
    forall i, j :: 0 <= i < j < |s| ==> s[i] < s[j]
  }

  /** On sorted input, Dedup is strictly increasing and keeps exactly the input's values. */
  lemma DedupOfSorted(s: seq<int>)
    requires Sorted(s)
    ensures StrictlyIncreasing(Dedup(s))
    ensures forall x :: x in Dedup(s) <==> x in s
  {
    DedupIncreasing(s);
    DedupValues(s);
  }

  /** On sorted input, the run representatives are strictly increasing. */
  lemma {:induction false} DedupIncreasing(s: seq<int>)
    requires Sorted(s)
    ensures StrictlyIncreasing(Dedup(s))
    decreases |s|
  {
    if |s| > 1 {
      var n := |s|;
      var init := s[..n - 1];
      assert Sorted(init);
      DedupIncreasing(init);
      var d := Dedup(init);
      if s[n - 1] != s[n - 2] {
        DedupLast(init);
        var r := d + [s[n - 1]];
        forall i, j | 0 <= i < j < |r|
          ensures r[i] < r[j]
        {
          if j == |d| {
            assert d[i] <= d[|d| - 1] == s[n - 2] <= s[n - 1];
          }
        }
      }
    }
  }

  /** Deduplication keeps exactly the values of its input. */
  lemma {:induction false} DedupValues<T>(s: seq<T>)
    ensures forall x :: x in Dedup(s) <==> x in s
    decreases |s|
  {
    if |s| > 0 {
      var n := |s|;
      var init := s[..n - 1];
      DedupValues(init);
      assert s == init + [s[n - 1]];
      if n > 1 && s[n - 1] == s[n - 2] {
        assert s[n - 1] in init;
      }
    }
  }

  /** Two strictly increasing sequences with the same values are equal. */
  lemma {:induction false} StrictlyIncreasingUnique(r: seq<int>, q: seq<int>)
    requires StrictlyIncreasing(r) && StrictlyIncreasing(q)
    requires forall x :: x in r <==> x in q
    ensures r == q
    decreases |r|
  {
    assert |r| > 0 ==> r[0] in r;
    assert |q| > 0 ==> q[0] in q;
    if |r| > 0 {
      assert r[0] in q && q[0] in r;
      assert r[0] == q[0];
      forall x
        ensures x in r[1..] <==> x in q[1..]
      {
        if x in r[1..] {
          assert x in q && x != q[0];
        }
        if x in q[1..] {
          assert x in r && x != r[0];
        }
      }
      StrictlyIncreasingUnique(r[1..], q[1..]);
      assert r == [r[0]] + r[1..] && q == [q[0]] + q[1..];
    }
  }

  /** A strictly increasing sequence has as many elements as distinct values. */
  lemma {:induction false} DistinctCount(r: seq<int>)
    requires StrictlyIncreasing(r)
    ensures |set x | x in r| == |r|
    decreases |r|
  {
    if |r| > 0 {
      var init := r[..|r| - 1];
      DistinctCount(init);
      assert r == init + [r[|r| - 1]];
      assert (set x | x in r) == (set x | x in init) + {r[|r| - 1]};
      assert r[|r| - 1] !in init;
    }
  }

  /**
   * unique on a sorted input equals numpy's unique (the ascending sequence of
   * the distinct values, the only strictly increasing sequence holding
   * exactly those values), and its count is the number of distinct values.
   */
  lemma UniqueIsNumpyUnique(s: seq<int>, numpyUnique: seq<int>)
    requires Sorted(s)
    requires StrictlyIncreasing(numpyUnique) && forall x :: x in numpyUnique <==> x in s
    ensures Dedup(s) == numpyUnique
    ensures |Dedup(s)| == |set x | x in s|
  {
    DedupOfSorted(s);
    StrictlyIncreasingUnique(Dedup(s), numpyUnique);
    DistinctCount(numpyUnique);
    assert (set x | x in s) == (set x | x in numpyUnique);
  }

  /** A sequence without equal neighbours is its own Dedup. */
  lemma {:induction false} DedupFixed<T>(s: seq<T>)
    requires forall i :: 0 < i < |s| ==> s[i] != s[i - 1]
    ensures Dedup(s) == s
    decreases |s|
  {
    if |s| > 0 {
      DedupFixed(s[..|s| - 1]);
    }
  }

  lemma {:induction false} DedupNoRepeats<T>(s: seq<T>)
    ensures forall i :: 0 < i < |Dedup(s)| ==> Dedup(s)[i] != Dedup(s)[i - 1]
    decreases |s|
  {
    if |s| > 0 {
      var init := s[..|s| - 1];
      DedupNoRepeats(init);
      if |init| > 0 {
        DedupLast(init);
      }
    }
  }

  /** unique applied twice is unique applied once. */
  lemma DedupIdempotent<T>(s: seq<T>)
    ensures Dedup(Dedup(s)) == Dedup(s)
  {
    DedupNoRepeats(s);
    DedupFixed(Dedup(s));
  }

  /** The predicate of the tests: the element exceeds a threshold. */
  function Above(crit: int): int -> bool
  {
    x => x > crit
  }

  /**
   * With the test's predicate `x > crit`: the selection holds only values
   * above crit, the rejects only values at most crit (the host's
   * `a[a <= crit]`), and together they are a permutation of the input.
   */
  lemma PartitionAtThreshold(s: seq<int>, crit: int)
    ensures forall x :: x in Filter(Above(crit), s) ==> x > crit
    ensures forall x :: x in Filter(Not(Above(crit)), s) ==> x <= crit
    ensures multiset(Filter(Above(crit), s)) + multiset(Filter(Not(Above(crit)), s)) == multiset(s)
  {
    FilterMembers(Above(crit), s);
    FilterMembers(Not(Above(crit)), s);
    FilterSplits(Above(crit), s);
  }
}
