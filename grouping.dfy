/**
 * Key-value grouping (the key-value sorter): parallel arrays of keys in
 * [0, nkeys) and values become a CSR pair `(starts, lists)`.  A histogram of
 * the keys is exclusively scanned into `starts`, and every value is then
 * scattered to `starts[key] + (number of earlier values with that key)`, so
 * `lists[starts[k]..starts[k+1]]` holds the values of key k in input order.
 * The host-side check of the same test builds a dictionary with
 * `setdefault(k, []).append(v)`; that loop is modelled too.
 */
module Grouping {
  import opened Scan

  /** The number of occurrences of `u` in `s`. */
  function Occ<T(==)>(s: seq<T>, u: T): nat
    decreases |s|
  {
    if |s| == 0 then 0 else Occ(s[..|s| - 1], u) + if s[|s| - 1] == u then 1 else 0
  }

  /** The number of values with key `k`: `Occ` on the key sequence. */
  function Count(keys: seq<int>, k: int): nat
  {
    Occ(keys, k)
  }

  /** The occurrence count is the multiplicity in the multiset of the sequence. */
  lemma {:induction false} OccIsMultiplicity<T>(s: seq<T>, u: T)
    ensures Occ(s, u) == multiset(s)[u]
    decreases |s|
  {
    if |s| > 0 {
      OccIsMultiplicity(s[..|s| - 1], u);
      assert s == s[..|s| - 1] + [s[|s| - 1]];
    }
  }

  /** Occurrences add up over a concatenation. */
  lemma {:induction false} OccConcat<T>(a: seq<T>, b: seq<T>, u: T)
    ensures Occ(a + b, u) == Occ(a, u) + Occ(b, u)
    decreases |b|
  {
    if |b| > 0 {
      OccConcat(a, b[..|b| - 1], u);
      assert (a + b)[..|a + b| - 1] == a + b[..|b| - 1];
    } else {
      assert a + b == a;
    }
  }

  /** Equal occurrence counts for every value make a permutation. */
  lemma SameOccurrences<T>(a: seq<T>, b: seq<T>)
    requires forall u :: Occ(a, u) == Occ(b, u)
    ensures multiset(a) == multiset(b)
  {
    forall u
      ensures multiset(a)[u] == multiset(b)[u]
    {
      OccIsMultiplicity(a, u);
      OccIsMultiplicity(b, u);
    }
  }

  /** The values whose key is `k`, in input order. */
  function GroupOf<T>(keys: seq<int>, values: seq<T>, k: int): (r: seq<T>)
    requires |keys| == |values|
    ensures |r| == Count(keys, k)
    decreases |keys|
  {
    if |keys| == 0 then []
    else GroupOf(keys[..|keys| - 1], values[..|values| - 1], k) + if keys[|keys| - 1] == k then [values[|values| - 1]] else []
  }

  /** All groups of keys 0..m-1, one after the other: the whole `lists` output. */
  function ConcatGroups<T>(keys: seq<int>, values: seq<T>, m: nat): seq<T>
    requires |keys| == |values|
  {
    if m == 0 then [] else ConcatGroups(keys, values, m - 1) + GroupOf(keys, values, m - 1)
  }

  /** The histogram: the count of every key below `m`. */
  function KeyCounts(keys: seq<int>, m: nat): (r: seq<int>)
    ensures |r| == m
  {
    seq(m, k requires 0 <= k < m => Count(keys, k))
  }

  /** Where the group of key `k` begins: the number of values with a smaller key. */
  function Offset(keys: seq<int>, k: nat): int
  {
    Fold(Add, 0, KeyCounts(keys, k))
  }

  ghost predicate InRange(keys: seq<int>, m: nat)
  {
    forall i :: 0 <= i < |keys| ==> 0 <= keys[i] < m
  }

  lemma CountStep(keys: seq<int>, i: nat, k: int)
    requires i < |keys|
    ensures Count(keys[..i + 1], k) == Count(keys[..i], k) + if keys[i] == k then 1 else 0
  {
    assert keys[..i + 1][..i] == keys[..i];
  }

  lemma GroupStep<T>(keys: seq<int>, values: seq<T>, i: nat, k: int)
    requires |keys| == |values| && i < |keys|
    ensures GroupOf(keys[..i + 1], values[..i + 1], k) == GroupOf(keys[..i], values[..i], k) + if keys[i] == k then [values[i]] else []
  {
    assert keys[..i + 1][..i] == keys[..i];
    assert values[..i + 1][..i] == values[..i];
  }

  /** A key occurs in the input exactly when its group is non-empty. */
  lemma GroupNonEmpty<T>(keys: seq<int>, values: seq<T>, k: int)
    requires |keys| == |values|
    ensures |GroupOf(keys, values, k)| > 0 <==> k in keys
  {
    OccIsMultiplicity(keys, k);
    assert k in keys <==> k in multiset(keys);
  }

  /** A group takes no value more often than the input holds it. */
  lemma {:induction false} GroupMembers<T>(keys: seq<int>, values: seq<T>, k: int)
    requires |keys| == |values|
    ensures multiset(GroupOf(keys, values, k)) <= multiset(values)
    decreases |keys|
  {
    if |keys| > 0 {
      var n := |keys|;
      GroupMembers(keys[..n - 1], values[..n - 1], k);
      assert values == values[..n - 1] + [values[n - 1]];
    }
  }

  lemma OffsetStep(keys: seq<int>, k: nat)
    ensures Offset(keys, k + 1) == Offset(keys, k) + Count(keys, k)
  {
    assert KeyCounts(keys, k + 1)[..k] == KeyCounts(keys, k);
  }

  /** Groups of smaller keys come first. */
  lemma {:induction false} OffsetMonotone(keys: seq<int>, a: nat, b: nat)
    requires a <= b
    ensures Offset(keys, a) <= Offset(keys, b)
    decreases b
  {
    if a < b {
      OffsetMonotone(keys, a, b - 1);
      OffsetStep(keys, b - 1);
    }
  }

  /** Appending one key moves every later group start by one. */
  lemma {:induction false} OffsetAppend(keys: seq<int>, x: int, m: nat)
    ensures Offset(keys + [x], m) == Offset(keys, m) + if 0 <= x < m then 1 else 0
    decreases m
  {
    if m > 0 {
      OffsetAppend(keys, x, m - 1);
      OffsetStep(keys, m - 1);
      OffsetStep(keys + [x], m - 1);
      assert (keys + [x])[..|keys|] == keys;
    }
  }

  /** With every key below m, the groups of keys below m cover the input. */
  lemma {:induction false} OffsetTotal(keys: seq<int>, m: nat)
    requires InRange(keys, m)
    ensures Offset(keys, m) == |keys|
    decreases |keys|
  {
    if |keys| == 0 {
      assert KeyCounts(keys, m) == seq(m, k => 0);
      ZeroFold(m);
    } else {
      var init := keys[..|keys| - 1];
      OffsetTotal(init, m);
      OffsetAppend(init, keys[|keys| - 1], m);
      assert init + [keys[|keys| - 1]] == keys;
    }
  }

  lemma {:induction false} ZeroFold(m: nat)
    ensures Fold(Add, 0, seq(m, k => 0)) == 0
    decreases m
  {
    if m > 0 {
      ZeroFold(m - 1);
      assert seq(m, k => 0)[..m - 1] == seq(m - 1, k => 0);
    }
  }

  /** A prefix has no more occurrences of a key than the whole input. */
  lemma {:induction false} CountPrefix(keys: seq<int>, i: nat, k: int)
    requires i <= |keys|
    ensures Count(keys[..i], k) <= Count(keys, k)
    decreases |keys| - i
  {
    if i < |keys| {
      CountPrefix(keys, i + 1, k);
      CountStep(keys, i, k);
    } else {
      assert keys[..i] == keys;
    }
  }

  /**
   * `out` holds the group of key k within the first i inputs at positions
   * starts[k], starts[k]+1, ...
   */
  ghost predicate PlacedKey<T>(out: seq<T>, starts: seq<int>, keys: seq<int>, values: seq<T>, i: nat, k: nat)
    requires |keys| == |values| && i <= |keys| && k < |starts|
  {
    0 <= starts[k] && starts[k] + Count(keys[..i], k) <= |out|
    && out[starts[k]..starts[k] + Count(keys[..i], k)] == GroupOf(keys[..i], values[..i], k)
  }

  /** Every key below nkeys has its first i inputs placed. */
  ghost predicate Placed<T>(out: seq<T>, starts: seq<int>, keys: seq<int>, values: seq<T>, i: nat, nkeys: nat)
    requires |keys| == |values| && i <= |keys| && |starts| == nkeys + 1
  {
    forall k :: 0 <= k < nkeys ==> PlacedKey(out, starts, keys, values, i, k)
  }

  /** The slot input i is written to: its key's start plus the earlier inputs with that key. */
  function Slot(starts: seq<int>, keys: seq<int>, i: nat): int
    requires i < |keys| && 0 <= keys[i] < |starts|
  {
    starts[keys[i]] + Count(keys[..i], keys[i])
  }

  /** Before any input is written, every (empty) group is placed. */
  lemma PlacedNothing<T>(out: seq<T>, starts: seq<int>, keys: seq<int>, values: seq<T>, nkeys: nat)
    requires |keys| == |values| && |starts| == nkeys + 1 && |out| == |keys| && InRange(keys, nkeys)
    requires forall j :: 0 <= j <= nkeys ==> starts[j] == Offset(keys, j)
    ensures Placed(out, starts, keys, values, 0, nkeys)
  {
    assert keys[..0] == [] && values[..0] == [];
    assert KeyCounts(keys, 0) == [];
    OffsetTotal(keys, nkeys);
    forall k: nat {:trigger PlacedKey(out, starts, keys, values, 0, k)} | k < nkeys
      ensures PlacedKey(out, starts, keys, values, 0, k)
    {
      OffsetMonotone(keys, 0, k);
      OffsetMonotone(keys, k, nkeys);
    }
  }

  /** Input i's slot lies inside its key's group. */
  lemma SlotInGroup(starts: seq<int>, keys: seq<int>, i: nat, nkeys: nat)
    requires i < |keys| && |starts| == nkeys + 1 && InRange(keys, nkeys)
    requires forall k :: 0 <= k <= nkeys ==> starts[k] == Offset(keys, k)
    ensures 0 <= starts[keys[i]] <= Slot(starts, keys, i) < starts[keys[i] + 1] <= |keys|
  {
    var key := keys[i];
    CountPrefix(keys, i + 1, key);
    CountStep(keys, i, key);
    OffsetStep(keys, key);
    OffsetMonotone(keys, 0, key);
    OffsetMonotone(keys, key + 1, nkeys);
    OffsetTotal(keys, nkeys);
  }

  /** Writing input i at its slot extends key k's placement by one input. */
  lemma PlacedKeyStep<T>(out: seq<T>, starts: seq<int>, keys: seq<int>, values: seq<T>, i: nat, nkeys: nat, k: nat)
    requires |keys| == |values| && i < |keys| && |starts| == nkeys + 1 && |out| == |keys|
    requires InRange(keys, nkeys) && k < nkeys
    requires forall j :: 0 <= j <= nkeys ==> starts[j] == Offset(keys, j)
    requires PlacedKey(out, starts, keys, values, i, k)
    ensures 0 <= Slot(starts, keys, i) < |out|
    ensures PlacedKey(out[Slot(starts, keys, i) := values[i]], starts, keys, values, i + 1, k)
  {
    SlotInGroup(starts, keys, i, nkeys);
    var key, p := keys[i], Slot(starts, keys, i);
    var out' := out[p := values[i]];
    var c := Count(keys[..i], k);
    assert k == key ==> p == starts[k] + c;
    CountStep(keys, i, k);
    GroupStep(keys, values, i, k);
    if k == key {
      assert out'[starts[k]..starts[k] + c + 1] == out[starts[k]..starts[k] + c] + [values[i]];
    } else {
      CountPrefix(keys, i, k);
      OffsetStep(keys, k);
      if k < key {
        OffsetMonotone(keys, k + 1, key);
      } else {
        OffsetMonotone(keys, key + 1, k);
      }
      assert out'[starts[k]..starts[k] + c] == out[starts[k]..starts[k] + c];
    }
  }

  /** Writing input i at its slot extends the whole placement by one input. */
  lemma PlacedStep<T>(out: seq<T>, starts: seq<int>, keys: seq<int>, values: seq<T>, i: nat, nkeys: nat)
    requires |keys| == |values| && i < |keys| && |starts| == nkeys + 1 && |out| == |keys|
    requires InRange(keys, nkeys)
    requires forall k :: 0 <= k <= nkeys ==> starts[k] == Offset(keys, k)
    requires Placed(out, starts, keys, values, i, nkeys)
    ensures 0 <= Slot(starts, keys, i) < |out|
    ensures Placed(out[Slot(starts, keys, i) := values[i]], starts, keys, values, i + 1, nkeys)
  {
    SlotInGroup(starts, keys, i, nkeys);
    var out' := out[Slot(starts, keys, i) := values[i]];
    forall k: nat {:trigger PlacedKey(out', starts, keys, values, i + 1, k)} | k < nkeys
      ensures PlacedKey(out', starts, keys, values, i + 1, k)
    {
      PlacedKeyStep(out, starts, keys, values, i, nkeys, k);
    }
  }

  /** Once every input is placed, key k's group fills the slice up to the next key's start. */
  lemma PlacedSlice<T>(out: seq<T>, starts: seq<int>, keys: seq<int>, values: seq<T>, nkeys: nat, k: nat)
    requires |keys| == |values| && |starts| == nkeys + 1 && k < nkeys
    requires forall j :: 0 <= j <= nkeys ==> starts[j] == Offset(keys, j)
    requires PlacedKey(out, starts, keys, values, |keys|, k)
    ensures 0 <= starts[k] <= starts[k + 1] <= |out|
    ensures out[starts[k]..starts[k + 1]] == GroupOf(keys, values, k)
  {
    assert keys[..|keys|] == keys && values[..|values|] == values;
    OffsetStep(keys, k);
  }

  /** The slice of `out` between the starts of keys k and k+1 is the group of k. */
  ghost predicate GroupAt<T>(out: seq<T>, starts: seq<int>, keys: seq<int>, values: seq<T>, k: nat)
    requires |keys| == |values| && k + 1 < |starts|
  {
    0 <= starts[k] <= starts[k + 1] <= |out| && out[starts[k]..starts[k + 1]] == GroupOf(keys, values, k)
  }

  /** The slices of keys 0..m-1, one after the other, are the first m groups. */
  lemma {:induction false} SlicesAreConcat<T>(out: seq<T>, starts: seq<int>, keys: seq<int>, values: seq<T>, nkeys: nat, m: nat)
    requires |keys| == |values| && |starts| == nkeys + 1 && m <= nkeys && starts[0] == 0
    requires forall k :: 0 <= k < nkeys ==> GroupAt(out, starts, keys, values, k)
    ensures 0 <= starts[m] <= |out|
    ensures out[..starts[m]] == ConcatGroups(keys, values, m)
    decreases m
  {
    if m > 0 {
      SlicesAreConcat(out, starts, keys, values, nkeys, m - 1);
      var g := GroupOf(keys, values, m - 1);
      assert GroupAt(out, starts, keys, values, m - 1);
      assert out[..starts[m]] == out[..starts[m - 1]] + g;
    }
  }

  /** The groups of all keys, together, are a permutation of the values. */
  lemma ConcatGroupsPermutation<T>(keys: seq<int>, values: seq<T>, m: nat)
    requires |keys| == |values| && InRange(keys, m)
    ensures multiset(ConcatGroups(keys, values, m)) == multiset(values)
  {
    forall u
      ensures Occ(ConcatGroups(keys, values, m), u) == Occ(values, u)
    {
      ConcatGroupsOcc(keys, values, m, u);
    }
    SameOccurrences(ConcatGroups(keys, values, m), values);
  }

  lemma {:induction false} ConcatGroupsOcc<T>(keys: seq<int>, values: seq<T>, m: nat, u: T)
    requires |keys| == |values| && InRange(keys, m)
    ensures Occ(ConcatGroups(keys, values, m), u) == Occ(values, u)
    decreases |keys|
  {
    if |keys| == 0 {
      EmptyConcat(keys, values, m);
    } else {
      var n := |keys|;
      var ks, vs := keys[..n - 1], values[..n - 1];
      assert InRange(ks, m);
      ConcatGroupsOcc(ks, vs, m, u);
      assert keys == ks + [keys[n - 1]] && values == vs + [values[n - 1]];
      ConcatAppend(ks, vs, keys[n - 1], values[n - 1], m, u);
    }
  }

  lemma {:induction false} EmptyConcat<T>(keys: seq<int>, values: seq<T>, m: nat)
    requires |keys| == |values| == 0
    ensures ConcatGroups(keys, values, m) == []
    decreases m
  {
    if m > 0 {
      EmptyConcat(keys, values, m - 1);
    }
  }

  /** An appended input joins exactly one group, the one of its key, if that key is below m. */
  lemma {:induction false} ConcatAppend<T>(keys: seq<int>, values: seq<T>, x: int, v: T, m: nat, u: T)
    requires |keys| == |values|
    ensures Occ(ConcatGroups(keys + [x], values + [v], m), u)
         == Occ(ConcatGroups(keys, values, m), u) + if 0 <= x < m && v == u then 1 else 0
    decreases m
  {
    if m > 0 {
      var ks, vs := keys + [x], values + [v];
      var before, after := ConcatGroups(keys, values, m - 1), ConcatGroups(ks, vs, m - 1);
      var g, g' := GroupOf(keys, values, m - 1), GroupOf(ks, vs, m - 1);
      var lower: int := if 0 <= x < m - 1 && v == u then 1 else 0;
      var here: int := if x == m - 1 && v == u then 1 else 0;
      assert Occ(after, u) == Occ(before, u) + lower by {
        ConcatAppend(keys, values, x, v, m - 1, u);
      }
      assert Occ(ConcatGroups(ks, vs, m), u) == Occ(after, u) + Occ(g', u) by {
        OccConcat(after, g', u);
      }
      assert Occ(ConcatGroups(keys, values, m), u) == Occ(before, u) + Occ(g, u) by {
        OccConcat(before, g, u);
      }
      assert Occ(g', u) == Occ(g, u) + here by {
        var extra: seq<T> := if x == m - 1 then [v] else [];
        GroupAppend(keys, values, x, v, m - 1);
        OccConcat(g, extra, u);
        OccSingle(v, u);
      }
      assert lower + here == if 0 <= x < m && v == u then 1 else 0;
    }
  }

  lemma OccSingle<T>(v: T, u: T)
    ensures Occ([v], u) == if v == u then 1 else 0
  {
    assert [v][..0] == [];
  }

  lemma GroupAppend<T>(keys: seq<int>, values: seq<T>, x: int, v: T, k: int)
    requires |keys| == |values|
    ensures GroupOf(keys + [x], values + [v], k) == GroupOf(keys, values, k) + if x == k then [v] else []
  {
    assert (keys + [x])[..|keys|] == keys;
    assert (values + [v])[..|values|] == values;
  }

  /** The histogram pass: one count per key, plus a trailing zero for the end offset. */
  method Histogram(keys: array<int>, nkeys: nat) returns (counts: array<int>)
    requires InRange(keys[..], nkeys)
    ensures fresh(counts) && counts.Length == nkeys + 1
    ensures counts[..] == KeyCounts(keys[..], nkeys + 1)
  {
    counts := new int[nkeys + 1](_ => 0);
    for i := 0 to keys.Length
      invariant forall k :: 0 <= k <= nkeys ==> counts[k] == Count(keys[..i], k)
    {
      forall k | 0 <= k <= nkeys
        ensures Count(keys[..i + 1], k) == Count(keys[..i], k) + if keys[i] == k then 1 else 0
      {
        CountStep(keys[..], i, k);
        assert keys[..][..i] == keys[..i] && keys[..][..i + 1] == keys[..i + 1];
      }
      counts[keys[i]] := counts[keys[i]] + 1;
    }
    assert keys[..keys.Length] == keys[..];
  }

  /** The scatter pass: each value goes to its key's start plus the key's running count. */
  method ScatterByKey<T>(keys: array<int>, values: array<T>, starts: array<int>, lists: array<T>, nkeys: nat)
    requires keys.Length == values.Length == lists.Length && starts.Length == nkeys + 1
    requires lists != values && lists != keys && lists != starts
    requires InRange(keys[..], nkeys)
    requires forall k :: 0 <= k <= nkeys ==> starts[k] == Offset(keys[..], k)
    modifies lists
    ensures Placed(lists[..], starts[..], keys[..], values[..], keys.Length, nkeys)
  {
    ghost var K, V, S := keys[..], values[..], starts[..];
    var fill := new int[nkeys + 1];
    forall k | 0 <= k <= nkeys {
      fill[k] := starts[k];
    }
    PlacedNothing(lists[..], S, K, V, nkeys);
    for i := 0 to keys.Length
      invariant forall k :: 0 <= k <= nkeys ==> fill[k] == S[k] + Count(K[..i], k)
      invariant Placed(lists[..], S, K, V, i, nkeys)
    {
      var key := keys[i];
      ghost var before := lists[..];
      PlacedStep(before, S, K, V, i, nkeys);
      forall k | 0 <= k <= nkeys
        ensures Count(K[..i + 1], k) == Count(K[..i], k) + if key == k then 1 else 0
      {
        CountStep(K, i, k);
      }
      lists[fill[key]] := values[i];
      assert lists[..] == before[Slot(S, K, i) := V[i]];
      fill[key] := fill[key] + 1;
    }
    assert K == keys[..] && V == values[..] && S == starts[..];
  }

  /**
   * Key-value grouping.  `starts` has one entry per key plus one, starts at 0,
   * ends at the input length and never decreases; the slice of `lists`
   * between consecutive starts is the group of that key in input order, and
   * `lists` as a whole is the groups laid out in key order.
   */
  method GroupByKey<T(0)>(keys: array<int>, values: array<T>, nkeys: nat) returns (starts: array<int>, lists: array<T>)
    requires keys.Length == values.Length
    requires InRange(keys[..], nkeys)
    ensures fresh(starts) && fresh(lists)
    ensures starts.Length == nkeys + 1 && lists.Length == keys.Length
    ensures starts[0] == 0 && starts[nkeys] == keys.Length
    ensures forall j, k :: 0 <= j <= k <= nkeys ==> 0 <= starts[j] <= starts[k] <= keys.Length
    ensures forall k :: 0 <= k < nkeys ==> lists[starts[k]..starts[k + 1]] == GroupOf(keys[..], values[..], k)
    ensures lists[..] == ConcatGroups(keys[..], values[..], nkeys)
  {
    ghost var K := keys[..];
    lists := new T[keys.Length];
    starts := Histogram(keys, nkeys);
    var total := ExclusiveScanInPlace(starts, Add, 0);
    assert keys[..] == K;
    StartsAreOffsets(K, nkeys, starts[..]);
    ScatterByKey(keys, values, starts, lists, nkeys);
    assert keys[..] == K;
    GroupSlices(lists[..], starts[..], K, values[..], nkeys);
    forall k | 0 <= k < nkeys
      ensures lists[starts[k]..starts[k + 1]] == GroupOf(K, values[..], k)
    {
      assert GroupAt(lists[..], starts[..], K, values[..], k);
    }
  }

  /** The exclusive scan of the histogram is the table of group starts. */
  lemma StartsAreOffsets(keys: seq<int>, nkeys: nat, starts: seq<int>)
    requires InRange(keys, nkeys)
    requires starts == Exclusive(Add, 0, KeyCounts(keys, nkeys + 1))
    ensures forall k :: 0 <= k <= nkeys ==> starts[k] == Offset(keys, k)
    ensures starts[0] == 0 && starts[nkeys] == |keys|
    ensures forall j, k :: 0 <= j <= k <= nkeys ==> 0 <= starts[j] <= starts[k] <= |keys|
  {
    forall k | 0 <= k <= nkeys
      ensures starts[k] == Offset(keys, k)
    {
      assert KeyCounts(keys, nkeys + 1)[..k] == KeyCounts(keys, k);
    }
    OffsetTotal(keys, nkeys);
    forall j, k | 0 <= j <= k <= nkeys
      ensures 0 <= starts[j] <= starts[k] <= |keys|
    {
      OffsetMonotone(keys, 0, j);
      OffsetMonotone(keys, j, k);
      OffsetMonotone(keys, k, nkeys);
    }
  }

  /** The final placement read as slices and as one concatenation. */
  lemma GroupSlices<T>(out: seq<T>, starts: seq<int>, keys: seq<int>, values: seq<T>, nkeys: nat)
    requires |keys| == |values| && |starts| == nkeys + 1 && |out| == |keys|
    requires InRange(keys, nkeys)
    requires forall k :: 0 <= k <= nkeys ==> starts[k] == Offset(keys, k)
    requires Placed(out, starts, keys, values, |keys|, nkeys)
    ensures forall k :: 0 <= k < nkeys ==> GroupAt(out, starts, keys, values, k)
    ensures out == ConcatGroups(keys, values, nkeys)
  {
    forall k | 0 <= k < nkeys
      ensures GroupAt(out, starts, keys, values, k)
    {
      PlacedSlice(out, starts, keys, values, nkeys, k);
    }
    assert KeyCounts(keys, 0) == [];
    SlicesAreConcat(out, starts, keys, values, nkeys, nkeys);
    OffsetTotal(keys, nkeys);
    assert out[..|out|] == out;
  }

  /**
   * The host check's dictionary: for each (k, v) in input order,
   * `setdefault(k, []).append(v)`.
   */
  method BuildDict<T>(keys: seq<int>, values: seq<T>) returns (d: map<int, seq<T>>)
    requires |keys| == |values|
    ensures d == DictOf(keys, values)
    ensures forall k :: k in d <==> k in keys
    ensures forall k :: k in d ==> d[k] == GroupOf(keys, values, k)
  {
    d := map[];
    for i := 0 to |keys|
      invariant d == DictOf(keys[..i], values[..i])
    {
      var k := keys[i];
      var bucket := if k in d then d[k] else [];
      assert keys[..i + 1][..i] == keys[..i] && values[..i + 1][..i] == values[..i];
      d := d[k := bucket + [values[i]]];
    }
    assert keys[..|keys|] == keys && values[..|values|] == values;
    DictOfGroups(keys, values);
  }

  /** The dictionary after the first |keys| `setdefault(k, []).append(v)` steps. */
  function DictOf<T>(keys: seq<int>, values: seq<T>): map<int, seq<T>>
    requires |keys| == |values|
    decreases |keys|
  {
    if |keys| == 0 then map[]
    else
      var d := DictOf(keys[..|keys| - 1], values[..|values| - 1]);
      var k := keys[|keys| - 1];
      d[k := (if k in d then d[k] else []) + [values[|values| - 1]]]
  }

  /** The dictionary holds exactly the keys that occur, each mapped to its group in input order. */
  lemma {:induction false} DictOfGroups<T>(keys: seq<int>, values: seq<T>)
    requires |keys| == |values|
    ensures forall k :: k in DictOf(keys, values) <==> k in keys
    ensures forall k :: GroupOf(keys, values, k) == if k in DictOf(keys, values) then DictOf(keys, values)[k] else []
    decreases |keys|
  {
    if |keys| > 0 {
      var n := |keys|;
      var ks, vs := keys[..n - 1], values[..n - 1];
      DictOfGroups(ks, vs);
      assert keys == ks + [keys[n - 1]];
      forall k ensures k in DictOf(keys, values) <==> k in keys {
        assert k in keys <==> k in ks || k == keys[n - 1];
      }
    }
  }

  /**
   * What the key-value test checks, for one key k below nkeys: the slice of
   * `lists` for k holds the same values as the dictionary's list for k, and
   * the dictionary has an entry for k exactly when that slice is non-empty.
   */
  lemma GroupingMatchesDict<T>(keys: seq<int>, values: seq<T>, d: map<int, seq<T>>, starts: seq<int>, lists: seq<T>, k: nat)
    requires |keys| == |values| && k + 1 < |starts|
    requires forall k :: k in d <==> k in keys
    requires forall k :: k in d ==> d[k] == GroupOf(keys, values, k)
    requires GroupAt(lists, starts, keys, values, k)
    ensures 0 <= starts[k] <= starts[k + 1] <= |lists|
    ensures k in d <==> starts[k] < starts[k + 1]
    ensures k in d ==> multiset(d[k]) == multiset(lists[starts[k]..starts[k + 1]])
  {
    GroupNonEmpty(keys, values, k);
  }
}
