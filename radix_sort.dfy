/**
 * Radix sort, least significant digit first.  Each pass takes one digit of
 * every key (`radix` values per digit, `bits_at_a_time` bits in the
 * library) and regroups the current sequence by that digit with the
 * key-value grouping pass: a histogram of digits, its exclusive scan, and a
 * stable scatter.  After pass p the sequence is ordered by the key's low p
 * digits; once all digits covering the key width are done it is sorted, and
 * since it is a permutation of the input it is the unique sorted
 * rearrangement, i.e. what numpy's sort returns.
 */
module RadixSort {
  import opened Scan
  import opened Grouping
  import opened StreamPrimitives

  function Pow(b: nat, e: nat): (r: nat)
    ensures b >= 1 ==> r >= 1
  {
    if e == 0 then 1 else b * Pow(b, e - 1)
  }

  /** Digit p of x in base `radix`. */
  function Digit(x: int, p: nat, radix: nat): (r: int)
    requires radix >= 2
    ensures 0 <= r < radix
  {
    (x / Pow(radix, p)) % radix
  }

  /** The value of the low p digits of x. */
  function Low(x: int, p: nat, radix: nat): (r: int)
    requires radix >= 2
    ensures 0 <= r < Pow(radix, p)
  {
    x % Pow(radix, p)
  }

  lemma MulAtLeast(a: int, m: int)
    requires a >= 1 && m >= 1
    ensures a * m >= m
  {
  }

  lemma MulMono(a: int, b: int, m: int)
    requires a <= b && m >= 0
    ensures a * m <= b * m
  {
    if a < b {
      MulAtLeast(b - a, m + 1);
    }
  }

  /** Division with remainder has only one answer. */
  lemma DivModUnique(x: int, m: int, q: int, r: int)
    requires m > 0 && 0 <= r < m && x == q * m + r
    ensures x / m == q && x % m == r
  {
    var q', r' := x / m, x % m;
    assert x == q' * m + r' && 0 <= r' < m;
    var d := q - q';
    assert d * m == r' - r;
    if d > 0 {
      MulAtLeast(d, m);
    } else if d < 0 {
      MulAtLeast(-d, m);
    }
  }

  /** The low p+1 digits are digit p followed by the low p digits. */
  lemma LowStep(x: int, p: nat, radix: nat)
    requires radix >= 2
    ensures Low(x, p + 1, radix) == Digit(x, p, radix) * Pow(radix, p) + Low(x, p, radix)
  {
    var m := Pow(radix, p);
    var xm := x / m;
    var hi, d, lo := xm / radix, xm % radix, x % m;
    assert x == hi * (radix * m) + (d * m + lo) by {
      assert xm == hi * radix + d;
      assert x == xm * m + lo;
      RegroupDigits(hi, radix, d, m);
    }
    assert d * m + lo < radix * m by {
      RestBelow(d, radix, m, lo);
    }
    assert Pow(radix, p + 1) == radix * m;
    DivModUnique(x, radix * m, hi, d * m + lo);
  }

  lemma RegroupDigits(hi: int, radix: int, d: int, m: int)
    ensures (hi * radix + d) * m == hi * (radix * m) + d * m
  {
  }

  lemma RestBelow(d: int, radix: int, m: int, lo: int)
    requires 0 <= d < radix && 0 <= lo < m
    ensures d * m + lo < radix * m
  {
    MulMono(d + 1, radix, m);
    assert (d + 1) * m == d * m + m;
  }

  /** A key below radix^p is its own low p digits. */
  lemma LowOfSmall(x: int, p: nat, radix: nat)
    requires radix >= 2 && 0 <= x < Pow(radix, p)
    ensures Low(x, p, radix) == x
  {
    DivModUnique(x, Pow(radix, p), 0, x);
  }

  /**
   * Keys with a smaller digit p come first in the order of the low p+1
   * digits, whatever their lower digits.
   */
  lemma DigitDominates(x: int, y: int, p: nat, radix: nat)
    requires radix >= 2 && Digit(x, p, radix) < Digit(y, p, radix)
    ensures Low(x, p + 1, radix) < Low(y, p + 1, radix)
  {
    LowStep(x, p, radix);
    LowStep(y, p, radix);
    PlaceValue(Digit(x, p, radix), Digit(y, p, radix), Low(x, p, radix), Low(y, p, radix), Pow(radix, p));
  }

  /** In positional notation a larger leading digit outweighs any lower digits. */
  lemma PlaceValue(dx: int, dy: int, lx: int, ly: int, m: int)
    requires dx < dy && 0 <= lx < m && 0 <= ly
    ensures dx * m + lx < dy * m + ly
  {
    MulMono(dx + 1, dy, m);
    assert (dx + 1) * m == dx * m + m;
  }

  /** The elements are in ascending order of `key`. */
  ghost predicate SortedBy<T>(s: seq<T>, key: T -> int)
  {
    forall i, j :: 0 <= i < j < |s| ==> key(s[i]) <= key(s[j])
  }

  lemma SortedByConcat<T>(a: seq<T>, b: seq<T>, key: T -> int)
    requires SortedBy(a, key) && SortedBy(b, key)
    requires forall i, j :: 0 <= i < |a| && 0 <= j < |b| ==> key(a[i]) <= key(b[j])
    ensures SortedBy(a + b, key)
  {
    var c := a + b;
    forall i, j | 0 <= i < j < |c|
      ensures key(c[i]) <= key(c[j])
    {
      if j < |a| {
        assert c[i] == a[i] && c[j] == a[j];
      } else if i >= |a| {
        assert c[i] == b[i - |a|] && c[j] == b[j - |a|];
        assert key(b[i - |a|]) <= key(b[j - |a|]);
      } else {
        assert c[i] == a[i] && c[j] == b[j - |a|];
        assert key(a[i]) <= key(b[j - |a|]);
      }
    }
  }

  /** A group of an input sorted by `key` is itself sorted by `key`: the scatter is stable. */
  lemma {:induction false} GroupSortedBy<T>(keys: seq<int>, values: seq<T>, k: int, key: T -> int)
    requires |keys| == |values| && SortedBy(values, key)
    ensures SortedBy(GroupOf(keys, values, k), key)
    decreases |keys|
  {
    if |keys| > 0 {
      var n := |keys|;
      var ks, vs, last := keys[..n - 1], values[..n - 1], values[n - 1];
      assert SortedBy(vs, key);
      GroupSortedBy(ks, vs, k, key);
      if keys[n - 1] == k {
        var g := GroupOf(ks, vs, k);
        GroupMembers(ks, vs, k);
        forall i, j | 0 <= i < |g| && 0 <= j < 1
          ensures key(g[i]) <= key([last][j])
        {
          assert g[i] in multiset(vs);
          var h :| 0 <= h < n - 1 && vs[h] == g[i];
          assert key(values[h]) <= key(values[n - 1]);
        }
        SortedByConcat(g, [last], key);
      }
    }
  }

  /** When every key is `digit` of its value, each group holds only values with that digit. */
  lemma {:induction false} GroupDigits<T>(keys: seq<int>, values: seq<T>, k: int, digit: T -> int)
    requires |keys| == |values|
    requires forall i :: 0 <= i < |keys| ==> keys[i] == digit(values[i])
    ensures forall i :: 0 <= i < |GroupOf(keys, values, k)| ==> digit(GroupOf(keys, values, k)[i]) == k
    decreases |keys|
  {
    if |keys| > 0 {
      var n := |keys|;
      var g := GroupOf(keys[..n - 1], values[..n - 1], k);
      GroupDigits(keys[..n - 1], values[..n - 1], k, digit);
      forall i | 0 <= i < |GroupOf(keys, values, k)|
        ensures digit(GroupOf(keys, values, k)[i]) == k
      {
        if i < |g| {
          assert GroupOf(keys, values, k)[i] == g[i];
        }
      }
    }
  }

  /** A smaller digit always orders first under `next`. */
  ghost predicate DigitFirst<T(!new)>(digit: T -> int, next: T -> int)
  {
    forall x, y :: digit(x) < digit(y) ==> next(x) < next(y)
  }

  /** Among values with equal digits, `next` keeps the order of `prev`. */
  ghost predicate DigitStable<T(!new)>(digit: T -> int, prev: T -> int, next: T -> int)
  {
    forall x, y :: digit(x) == digit(y) && prev(x) <= prev(y) ==> next(x) <= next(y)
  }

  lemma FirstApply<T(!new)>(digit: T -> int, next: T -> int, x: T, y: T)
    requires DigitFirst(digit, next) && digit(x) < digit(y)
    ensures next(x) < next(y)
  {
  }

  lemma StableApply<T(!new)>(digit: T -> int, prev: T -> int, next: T -> int, x: T, y: T)
    requires DigitStable(digit, prev, next) && digit(x) == digit(y) && prev(x) <= prev(y)
    ensures next(x) <= next(y)
  {
  }

  /** The group of digit k, sorted by `prev`, is sorted by `next`. */
  lemma GroupSortedNext<T(!new)>(keys: seq<int>, values: seq<T>, k: int, prev: T -> int, next: T -> int, digit: T -> int)
    requires |keys| == |values| && SortedBy(values, prev)
    requires forall i :: 0 <= i < |keys| ==> keys[i] == digit(values[i])
    requires DigitStable(digit, prev, next)
    ensures SortedBy(GroupOf(keys, values, k), next)
    ensures forall i :: 0 <= i < |GroupOf(keys, values, k)| ==> digit(GroupOf(keys, values, k)[i]) == k
  {
    var g := GroupOf(keys, values, k);
    GroupDigits(keys, values, k, digit);
    GroupSortedBy(keys, values, k, prev);
    forall i, j | 0 <= i < j < |g|
      ensures next(g[i]) <= next(g[j])
    {
      StableApply(digit, prev, next, g[i], g[j]);
    }
  }

  /** Appending the group of the next digit keeps the groups sorted by `next`. */
  lemma AppendGroupSorted<T(!new)>(a: seq<T>, b: seq<T>, d: int, next: T -> int, digit: T -> int)
    requires SortedBy(a, next) && SortedBy(b, next)
    requires forall i :: 0 <= i < |a| ==> digit(a[i]) < d
    requires forall i :: 0 <= i < |b| ==> digit(b[i]) == d
    requires DigitFirst(digit, next)
    ensures SortedBy(a + b, next)
    ensures forall i :: 0 <= i < |a + b| ==> digit((a + b)[i]) <= d
  {
    forall i, j | 0 <= i < |a| && 0 <= j < |b|
      ensures next(a[i]) <= next(b[j])
    {
      FirstApply(digit, next, a[i], b[j]);
    }
    SortedByConcat(a, b, next);
  }

  /**
   * One pass, for any digit of a finer order: if a smaller digit always
   * orders first under `next`, and equal digits leave the order of `prev` in
   * place, regrouping a sequence sorted by `prev` by its digit sorts it by
   * `next`.
   */
  lemma {:induction false} PassSorts<T(!new)>(keys: seq<int>, values: seq<T>, m: nat, prev: T -> int, next: T -> int, digit: T -> int)
    requires |keys| == |values| && SortedBy(values, prev)
    requires forall i :: 0 <= i < |keys| ==> keys[i] == digit(values[i])
    requires DigitFirst(digit, next) && DigitStable(digit, prev, next)
    ensures SortedBy(ConcatGroups(keys, values, m), next)
    ensures forall i :: 0 <= i < |ConcatGroups(keys, values, m)| ==> digit(ConcatGroups(keys, values, m)[i]) < m
    decreases m
  {
    if m > 0 {
      var a, b := ConcatGroups(keys, values, m - 1), GroupOf(keys, values, m - 1);
      PassSorts(keys, values, m - 1, prev, next, digit);
      GroupSortedNext(keys, values, m - 1, prev, next, digit);
      AppendGroupSorted(a, b, m - 1, next, digit);
      assert ConcatGroups(keys, values, m) == a + b;
    }
  }

  /** Digit p, as a key function. */
  function DigitKey(p: nat, radix: nat): int -> int
    requires radix >= 2
  {
    x => Digit(x, p, radix)
  }

  /** The low p digits, as a key function. */
  function LowKey(p: nat, radix: nat): int -> int
    requires radix >= 2
  {
    x => Low(x, p, radix)
  }

  /** The low-digit orders of radix sort meet the conditions of one pass. */
  lemma DigitOrders(p: nat, radix: nat)
    requires radix >= 2
    ensures DigitFirst(DigitKey(p, radix), LowKey(p + 1, radix))
    ensures DigitStable(DigitKey(p, radix), LowKey(p, radix), LowKey(p + 1, radix))
  {
    forall x, y | Digit(x, p, radix) < Digit(y, p, radix)
      ensures Low(x, p + 1, radix) < Low(y, p + 1, radix)
    {
      DigitDominates(x, y, p, radix);
    }
    forall x, y | Digit(x, p, radix) == Digit(y, p, radix) && Low(x, p, radix) <= Low(y, p, radix)
      ensures Low(x, p + 1, radix) <= Low(y, p + 1, radix)
    {
      LowStep(x, p, radix);
      LowStep(y, p, radix);
    }
  }

  /** The digit-p key of every value: the key array one pass regroups by. */
  function DigitsOf(s: seq<int>, p: nat, radix: nat): (r: seq<int>)
    requires radix >= 2
    ensures |r| == |s| && InRange(r, radix)
  {
    seq(|s|, i requires 0 <= i < |s| => Digit(s[i], p, radix))
  }

  /**
   * One pass of radix sort on digit p: regrouping values already ordered by
   * their low p digits, by digit p, orders them by their low p+1 digits and
   * loses or adds no value.
   */
  lemma RadixPass(values: seq<int>, p: nat, radix: nat)
    requires radix >= 2
    requires SortedBy(values, LowKey(p, radix))
    ensures SortedBy(ConcatGroups(DigitsOf(values, p, radix), values, radix), LowKey(p + 1, radix))
    ensures multiset(ConcatGroups(DigitsOf(values, p, radix), values, radix)) == multiset(values)
  {
    var keys := DigitsOf(values, p, radix);
    DigitOrders(p, radix);
    assert forall i :: 0 <= i < |keys| ==> keys[i] == DigitKey(p, radix)(values[i]);
    PassSorts(keys, values, radix, LowKey(p, radix), LowKey(p + 1, radix), DigitKey(p, radix));
    ConcatGroupsPermutation(keys, values, radix);
  }

  /** Before any pass, every key has the same (empty) low part. */
  lemma NoDigitsSorted(s: seq<int>, radix: nat)
    requires radix >= 2
    ensures SortedBy(s, LowKey(0, radix))
  {
    forall i, j | 0 <= i < j < |s|
      ensures LowKey(0, radix)(s[i]) <= LowKey(0, radix)(s[j])
    {
      assert Low(s[i], 0, radix) == 0 && Low(s[j], 0, radix) == 0;
    }
  }

  /** Once all digits of keys below radix^passes are used, the order is the numeric order. */
  lemma AllDigitsSorted(s: seq<int>, passes: nat, radix: nat)
    requires radix >= 2 && SortedBy(s, LowKey(passes, radix))
    requires forall i :: 0 <= i < |s| ==> 0 <= s[i] < Pow(radix, passes)
    ensures Sorted(s)
  {
    forall i, j | 0 <= i < j < |s|
      ensures s[i] <= s[j]
    {
      LowOfSmall(s[i], passes, radix);
      LowOfSmall(s[j], passes, radix);
      assert LowKey(passes, radix)(s[i]) <= LowKey(passes, radix)(s[j]);
    }
  }

  /**
   * A sorted sequence is determined by its multiset: the result of any
   * correct sort of the input, numpy's sort included, is the same sequence.
   */
  lemma {:induction false} SortedUnique(s: seq<int>, t: seq<int>)
    requires Sorted(s) && Sorted(t) && multiset(s) == multiset(t)
    ensures s == t
    decreases |s|
  {
    assert |s| == |multiset(s)| == |t|;
    if |s| > 0 {
      var n := |s|;
      var a, b := s[..n - 1], t[..n - 1];
      var last := s[n - 1];
      assert t[n - 1] == last by {
        SortedLast(s, t);
      }
      assert multiset(a) == multiset(b) by {
        MultisetInit(s);
        MultisetInit(t);
      }
      assert Sorted(a) && Sorted(b);
      SortedUnique(a, b);
      assert s == a + [last] && t == b + [last];
    }
  }

  /** Two sorted sequences with the same elements end with the same, largest, element. */
  lemma SortedLast(s: seq<int>, t: seq<int>)
    requires Sorted(s) && Sorted(t) && multiset(s) == multiset(t) && |s| == |t| > 0
    ensures s[|s| - 1] == t[|t| - 1]
  {
    var n := |s|;
    assert s[n - 1] in multiset(t) && t[n - 1] in multiset(s);
    var j :| 0 <= j < n && t[j] == s[n - 1];
    var h :| 0 <= h < n && s[h] == t[n - 1];
  }

  /** Dropping the last element takes one occurrence of it out of the multiset. */
  lemma MultisetInit(s: seq<int>)
    requires |s| > 0
    ensures multiset(s[..|s| - 1]) == multiset(s) - multiset{s[|s| - 1]}
  {
    assert s == s[..|s| - 1] + [s[|s| - 1]];
  }

  /** Insert x before the first element not below it. */
  function Insert(x: int, s: seq<int>): (r: seq<int>)
    ensures multiset(r) == multiset(s) + multiset{x}
    decreases |s|
  {
    if |s| == 0 then [x]
    else if x <= s[0] then [x] + s
    else (assert s == [s[0]] + s[1..]; [s[0]] + Insert(x, s[1..]))
  }

  lemma {:induction false} InsertSorted(x: int, s: seq<int>)
    requires Sorted(s)
    ensures Sorted(Insert(x, s))
    decreases |s|
  {
    if |s| > 0 && x > s[0] {
      var rest := Insert(x, s[1..]);
      InsertSorted(x, s[1..]);
      forall i | 0 <= i < |rest|
        ensures s[0] <= rest[i]
      {
        assert rest[i] in multiset(s[1..]) + multiset{x};
        if rest[i] != x {
          var j :| 0 <= j < |s[1..]| && s[1..][j] == rest[i];
          assert s[j + 1] == rest[i];
        }
      }
      assert Insert(x, s) == [s[0]] + rest;
    }
  }

  /** A reference sort, insertion sort on values: the role numpy's sort plays in the test. */
  function ReferenceSort(s: seq<int>): (r: seq<int>)
    ensures multiset(r) == multiset(s)
    decreases |s|
  {
    if |s| == 0 then []
    else (assert s == [s[0]] + s[1..]; Insert(s[0], ReferenceSort(s[1..])))
  }

  lemma {:induction false} ReferenceSortSorted(s: seq<int>)
    ensures Sorted(ReferenceSort(s))
    decreases |s|
  {
    if |s| > 0 {
      ReferenceSortSorted(s[1..]);
      InsertSorted(s[0], ReferenceSort(s[1..]));
    }
  }

  /** Any sorted permutation of s is the reference sort of s. */
  lemma MatchesReference(r: seq<int>, s: seq<int>)
    requires Sorted(r) && multiset(r) == multiset(s)
    ensures r == ReferenceSort(s)
  {
    ReferenceSortSorted(s);
    SortedUnique(r, ReferenceSort(s));
  }

  /**
   * One pass: the digit-p keys are computed element-wise, then the values are
   * regrouped by key with the histogram, exclusive scan and stable scatter.
   */
  method SortPass(cur: array<int>, p: nat, radix: nat) returns (next: array<int>)
    requires radix >= 2
    ensures fresh(next) && next.Length == cur.Length
    ensures next[..] == ConcatGroups(DigitsOf(cur[..], p, radix), cur[..], radix)
  {
    var digits := new int[cur.Length];
    forall i | 0 <= i < cur.Length {
      digits[i] := Digit(cur[i], p, radix);
    }
    assert digits[..] == DigitsOf(cur[..], p, radix);
    var starts;
    starts, next := GroupByKey(digits, cur, radix);
  }

  /**
   * Sorting the keys with one stable regrouping per digit, lowest digit first.
   * The result is sorted and a permutation of the input.
   */
  method RadixSort(a: array<int>, radix: nat, passes: nat) returns (sorted: array<int>)
    requires radix >= 2
    requires forall i :: 0 <= i < a.Length ==> 0 <= a[i] < Pow(radix, passes)
    ensures fresh(sorted) && sorted.Length == a.Length
    ensures Sorted(sorted[..])
    ensures multiset(sorted[..]) == multiset(a[..])
    ensures sorted[..] == ReferenceSort(a[..])
  {
    ghost var input := a[..];
    var cur := CopyOf(a);
    NoDigitsSorted(input, radix);
    for p := 0 to passes
      invariant fresh(cur) && cur.Length == a.Length
      invariant multiset(cur[..]) == multiset(input)
      invariant SortedBy(cur[..], LowKey(p, radix))
    {
      ghost var before := cur[..];
      var next := SortPass(cur, p, radix);
      assert cur[..] == before;
      RadixPass(before, p, radix);
      cur := next;
    }
    assert forall i :: 0 <= i < cur.Length ==> 0 <= cur[i] < Pow(radix, passes) by {
      forall i | 0 <= i < cur.Length
        ensures 0 <= cur[i] < Pow(radix, passes)
      {
        assert cur[i] in multiset(input);
      }
    }
    AllDigitsSorted(cur[..], passes, radix);
    MatchesReference(cur[..], input);
    assert a[..] == input;
    sorted := cur;
  }

  /** The keys are sorted into new arrays; the input is left as it is. */
  method CopyOf(a: array<int>) returns (c: array<int>)
    ensures fresh(c) && c[..] == a[..]
  {
    c := new int[a.Length];
    forall i | 0 <= i < a.Length {
      c[i] := a[i];
    }
  }
}
