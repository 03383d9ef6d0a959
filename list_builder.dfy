/**
 * The list-of-lists builder, stated sequentially.
 *
 * A generator is run once per index i in 0..n-1 and appends some items; the
 * builder returns all items of all indices in index order (`lists`), where
 * the items of index i start (`starts`), and how many there are in all
 * (`count`).  It works in two passes over the generator: a counting pass
 * that records how many items each index appends, an exclusive `+` scan of
 * those counts that turns them into start offsets, and an emitting pass that
 * writes the items of index i from its start offset on.
 *
 * A generator is modelled as the function from an index to the sequence of
 * items it appends.
 */
module ListBuilder {
  import opened Scan

  /** Everything indices 0..n-1 append, in index order. */
  function Emitted<T>(gen: nat -> seq<T>, n: nat): seq<T>
  {
    if n == 0 then [] else Emitted(gen, n - 1) + gen(n - 1)
  }

  /** The item counts of indices 0..n-1, followed by a zero for the end offset. */
  function Counts<T>(gen: nat -> seq<T>, n: nat): (r: seq<int>)
    ensures |r| == n + 1
  {
    seq(n + 1, i requires 0 <= i <= n => if i < n then |gen(i)| else 0)
  }

  /** The exclusive sum of the counts up to index i is the length of what precedes index i. */
  lemma {:induction false} CountsPrefix<T>(gen: nat -> seq<T>, n: nat, i: nat)
    requires i <= n
    ensures Fold(Add, 0, Counts(gen, n)[..i]) == |Emitted(gen, i)|
    decreases i
  {
    if i > 0 {
      CountsPrefix(gen, n, i - 1);
      assert Counts(gen, n)[..i][..i - 1] == Counts(gen, n)[..i - 1];
    }
  }

  /** Where the items of each index 0..n start, the last entry being the total. */
  function Starts<T>(gen: nat -> seq<T>, n: nat): (r: seq<int>)
    ensures |r| == n + 1
  {
    seq(n + 1, i requires 0 <= i <= n => |Emitted(gen, i)|)
  }

  /**
   * The exclusive `+` scan of the counts is the start offsets, and the scan's
   * total is the number of items appended in all.
   */
  lemma CountsScanToStarts<T>(gen: nat -> seq<T>, n: nat)
    ensures Exclusive(Add, 0, Counts(gen, n)) == Starts(gen, n)
    ensures Fold(Add, 0, Counts(gen, n)) == |Emitted(gen, n)|
  {
    forall i | 0 <= i <= n
      ensures Exclusive(Add, 0, Counts(gen, n))[i] == Starts(gen, n)[i]
    {
      CountsPrefix(gen, n, i);
    }
    CountsPrefix(gen, n, n);
  }

  /** The items of index i sit right after those of indices 0..i-1. */
  lemma {:induction false} EmittedSlice<T>(gen: nat -> seq<T>, n: nat, i: nat)
    requires i < n
    ensures |Emitted(gen, i)| + |gen(i)| <= |Emitted(gen, n)|
    ensures Emitted(gen, n)[|Emitted(gen, i)|..|Emitted(gen, i)| + |gen(i)|] == gen(i)
    decreases n
  {
    if i < n - 1 {
      EmittedSlice(gen, n - 1, i);
    }
  }

  /** The list of index i is the slice of `lists` between its start and the next one. */
  ghost predicate ListAt<T>(starts: seq<int>, lists: seq<T>, gen: nat -> seq<T>, i: nat)
    requires i + 1 < |starts|
  {
    0 <= starts[i] <= starts[i + 1] <= |lists| && lists[starts[i]..starts[i + 1]] == gen(i)
  }

  lemma ListsAreSlices<T>(gen: nat -> seq<T>, n: nat)
    ensures forall i :: 0 <= i < n ==> ListAt(Starts(gen, n), Emitted(gen, n), gen, i)
  {
    forall i | 0 <= i < n
      ensures ListAt(Starts(gen, n), Emitted(gen, n), gen, i)
    {
      EmittedSlice(gen, n, i);
    }
  }

  /** The counting pass: every index records how many items it appends. */
  method CountPass<T>(gen: nat -> seq<T>, n: nat) returns (counts: array<int>)
    ensures fresh(counts) && counts[..] == Counts(gen, n)
  {
    counts := new int[n + 1];
    for i := 0 to n + 1
      invariant forall k :: 0 <= k < i ==> counts[k] == Counts(gen, n)[k]
    {
      counts[i] := if i < n then |gen(i)| else 0;
    }
  }

  /** The emitting pass: index i writes its items from its start offset on. */
  method EmitPass<T>(gen: nat -> seq<T>, n: nat, starts: seq<int>, lists: array<T>)
    requires starts == Starts(gen, n) && lists.Length == |Emitted(gen, n)|
    modifies lists
    ensures lists[..] == Emitted(gen, n)
  {
    for i := 0 to n
      invariant starts[i] <= lists.Length && lists[..starts[i]] == Emitted(gen, i)
    {
      var base := starts[i];
      EmittedSlice(gen, n, i);
      for j := 0 to |gen(i)|
        invariant lists[..base + j] == Emitted(gen, i) + gen(i)[..j]
      {
        lists[base + j] := gen(i)[j];
        assert gen(i)[..j + 1] == gen(i)[..j] + [gen(i)[j]];
      }
      assert gen(i)[..|gen(i)|] == gen(i);
    }
    assert lists[..] == lists[..starts[n]];
  }

  /**
   * The builder: the counting pass, the scan of the counts into start
   * offsets, and the emitting pass.  The lists are exactly what the
   * generator appends, in index order, the start of each index is the
   * number of items appended before it, and each index's items are the
   * slice between its start and the next one.
   */
  method BuildLists<T(0)>(gen: nat -> seq<T>, n: nat) returns (starts: array<int>, lists: array<T>, count: int)
    ensures fresh(starts) && fresh(lists) && starts.Length == n + 1
    ensures count == |Emitted(gen, n)| && lists[..] == Emitted(gen, n)
    ensures forall i :: 0 <= i <= n ==> starts[i] == |Emitted(gen, i)|
    ensures forall i :: 0 <= i < n ==> ListAt(starts[..], lists[..], gen, i)
  {
    starts := CountPass(gen, n);
    count := ExclusiveScanInPlace(starts, Add, 0);
    CountsScanToStarts(gen, n);
    lists := new T[count];
    EmitPass(gen, n, starts[..], lists);
    ListsAreSlices(gen, n);
  }

  /** The generator of the test: index i appends i % 4 copies of i % 4. */
  function ModFour(i: nat): (r: seq<int>)
    ensures |r| == i % 4
    ensures forall j :: 0 <= j < |r| ==> r[j] == i % 4
  {
    seq(i % 4, _ => i % 4)
  }

  /** Four more indices append the items of each, in order. */
  lemma EmittedFour<T>(gen: nat -> seq<T>, b: nat)
    ensures Emitted(gen, b + 4) == Emitted(gen, b) + gen(b) + gen(b + 1) + gen(b + 2) + gen(b + 3)
  {
    assert Emitted(gen, b + 4) == Emitted(gen, b + 3) + gen(b + 3);
    assert Emitted(gen, b + 3) == Emitted(gen, b + 2) + gen(b + 2);
    assert Emitted(gen, b + 2) == Emitted(gen, b + 1) + gen(b + 1);
  }

  /** Indices 4q .. 4q+3 append nothing, one 1, two 2s and three 3s. */
  lemma ModFourBlock(q: nat)
    ensures ModFour(4 * q) == [] && ModFour(4 * q + 1) == [1]
    ensures ModFour(4 * q + 2) == [2, 2] && ModFour(4 * q + 3) == [3, 3, 3]
  {
    assert (4 * q) % 4 == 0 && (4 * q + 1) % 4 == 1 && (4 * q + 2) % 4 == 2 && (4 * q + 3) % 4 == 3;
  }

  /** Indices 4q .. 4q+3 together append 1, 2, 2, 3, 3, 3. */
  lemma ModFourStep(q: nat)
    ensures Emitted(ModFour, 4 * q + 4) == Emitted(ModFour, 4 * q) + [1, 2, 2, 3, 3, 3]
  {
    EmittedFour(ModFour, 4 * q);
    ModFourBlock(q);
    assert [] + [1] + [2, 2] + [3, 3, 3] == [1, 2, 2, 3, 3, 3];
  }

  /** Every four indices append 0 + 1 + 2 + 3 = 6 items. */
  lemma {:induction false} ModFourCount(m: nat)
    ensures |Emitted(ModFour, 4 * m)| == 6 * m
    decreases m
  {
    if m > 0 {
      ModFourCount(m - 1);
      ModFourStep(m - 1);
    }
  }

  /** Through index 4q+3 there are 6q+6 items, ending in 1, 2, 2, 3, 3, 3. */
  lemma ModFourTail(q: nat)
    ensures |Emitted(ModFour, 4 * q + 4)| == 6 * q + 6
    ensures Emitted(ModFour, 4 * q + 4)[6 * q..] == [1, 2, 2, 3, 3, 3]
  {
    var e := Emitted(ModFour, 4 * q);
    ModFourCount(q);
    ModFourStep(q);
    assert (e + [1, 2, 2, 3, 3, 3])[|e|..] == [1, 2, 2, 3, 3, 3];
  }

  /** With 2000 indices the builder reports 3000 items, the last six being 1, 2, 2, 3, 3, 3. */
  lemma ModFourBuild()
    ensures |Emitted(ModFour, 2000)| == 3000
    ensures Emitted(ModFour, 2000)[2994..] == [1, 2, 2, 3, 3, 3]
  {
    ModFourTail(499);
  }
}
