/**
  Reference definitions for counting sort (burst/algorithm/sorting/detail/counting_sort.hpp).

  Every element is mapped by `key` to a small natural number. A stable sort by
  key puts the elements with key 0 first, then those with key 1, and so on,
  each group in the order it had in the input. The definitions here say what
  the counters and the output of counting sort must be; the lemmas relate them.
 */
module Buckets {

  /** Every key lies in `[0, K)`. */
  predicate KeysBelow<T>(s: seq<T>, key: T -> nat, K: nat) {
    forall i :: 0 <= i < |s| ==> key(s[i]) < K
  }

  /** The elements of `s` whose key is `k`, in their order in `s`. */
  function Filter<T>(s: seq<T>, key: T -> nat, k: nat): seq<T> {
    if s == [] then []
    else Filter(s[..|s| - 1], key, k) + (if key(s[|s| - 1]) == k then [s[|s| - 1]] else [])
  }

  /** The elements of `s` whose key is strictly less than `k`, in their order in `s`. */
  function Below<T>(s: seq<T>, key: T -> nat, k: nat): seq<T> {
    if s == [] then []
    else Below(s[..|s| - 1], key, k) + (if key(s[|s| - 1]) < k then [s[|s| - 1]] else [])
  }

  /** Number of elements of `s` whose key is `k`. */
  function CountKey<T>(s: seq<T>, key: T -> nat, k: nat): nat {
    |Filter(s, key, k)|
  }

  /** Number of elements of `s` whose key is strictly less than `k`. */
  function CountBelow<T>(s: seq<T>, key: T -> nat, k: nat): nat {
    |Below(s, key, k)|
  }

  /** The stable sort of `s` by key, restricted to keys below `k`: group 0, then group 1, ... */
  function Bucketed<T>(s: seq<T>, key: T -> nat, k: nat): seq<T> {
    if k == 0 then [] else Bucketed(s, key, k - 1) + Filter(s, key, k - 1)
  }

  /** Keys are non-decreasing along `s`. */
  predicate SortedByKey<T>(s: seq<T>, key: T -> nat) {
    forall i, j :: 0 <= i < j < |s| ==> key(s[i]) <= key(s[j])
  }

  /** Where counting sort puts the element with key `k` that has `t` elements of that key before it. */
  function Slot<T>(s: seq<T>, key: T -> nat, k: nat, t: nat): nat {
    CountBelow(s, key, k) + t
  }

  // ---------------------------------------------------------------------------
  // Prefixes
  // ---------------------------------------------------------------------------

  /** Taking one more input element adds it to its own group and to no other. */
  lemma FilterExtend<T>(s: seq<T>, key: T -> nat, i: nat, k: nat)
    requires i < |s|
    ensures Filter(s[..i + 1], key, k) == Filter(s[..i], key, k) + (if key(s[i]) == k then [s[i]] else [])
  {
    assert s[..i + 1][..i] == s[..i];
  }

  /** The group of a prefix is a prefix of the group. */
  lemma {:induction false} FilterPrefix<T>(s: seq<T>, key: T -> nat, j: nat, k: nat)
    requires j <= |s|
    ensures CountKey(s[..j], key, k) <= CountKey(s, key, k)
    ensures forall t :: 0 <= t < CountKey(s[..j], key, k) ==> Filter(s[..j], key, k)[t] == Filter(s, key, k)[t]
    decreases |s| - j
  {
    if j < |s| {
      var s' := s[..|s| - 1];
      assert s'[..j] == s[..j];
      FilterPrefix(s', key, j, k);
    } else {
      assert s[..j] == s;
    }
  }

  /** Element `j` sits in its group right after the elements of that group that precede it. */
  lemma FilterAt<T>(s: seq<T>, key: T -> nat, j: nat)
    requires j < |s|
    ensures CountKey(s[..j], key, key(s[j])) < CountKey(s, key, key(s[j]))
    ensures Filter(s, key, key(s[j]))[CountKey(s[..j], key, key(s[j]))] == s[j]
  {
    var k := key(s[j]);
    FilterExtend(s, key, j, k);
    FilterPrefix(s, key, j + 1, k);
    assert Filter(s[..j + 1], key, k)[CountKey(s[..j], key, k)] == s[j];
  }

  /** A later element of the same group has more of its group before it. */
  lemma CountKeyGrows<T>(s: seq<T>, key: T -> nat, i: nat, j: nat)
    requires i < j <= |s|
    ensures CountKey(s[..i], key, key(s[i])) < CountKey(s[..j], key, key(s[i]))
  {
    var k := key(s[i]);
    FilterExtend(s, key, i, k);
    FilterPrefix(s[..j], key, i + 1, k);
    assert s[..j][..i + 1] == s[..i + 1];
  }

  // ---------------------------------------------------------------------------
  // Counting
  // ---------------------------------------------------------------------------

  lemma {:induction false} BelowZero<T>(s: seq<T>, key: T -> nat)
    ensures CountBelow(s, key, 0) == 0
  {
    if s != [] {
      BelowZero(s[..|s| - 1], key);
    }
  }

  /** With every key below `K`, every element is below `K`. */
  lemma {:induction false} BelowAll<T>(s: seq<T>, key: T -> nat, K: nat)
    requires KeysBelow(s, key, K)
    ensures Below(s, key, K) == s
  {
    if s != [] {
      var init := s[..|s| - 1];
      var last := s[|s| - 1];
      assert KeysBelow(init, key, K) by {
        forall i | 0 <= i < |init|
          ensures key(init[i]) < K
        {
          assert init[i] == s[i];
        }
      }
      BelowAll(init, key, K);
      assert key(last) < K;
      assert s == init + [last];
    }
  }

  /** The elements below `k + 1` are those below `k` and those equal to `k`. */
  lemma {:induction false} BelowStep<T>(s: seq<T>, key: T -> nat, k: nat)
    ensures multiset(Below(s, key, k + 1)) == multiset(Below(s, key, k)) + multiset(Filter(s, key, k))
    ensures CountBelow(s, key, k + 1) == CountBelow(s, key, k) + CountKey(s, key, k)
  {
    if s != [] {
      BelowStep(s[..|s| - 1], key, k);
    }
  }

  /** The counting half of BelowStepDown, for callers that must not see the multisets. */
  lemma CountBelowStepDown<T>(s: seq<T>, key: T -> nat, k: nat)
    requires k > 0
    ensures CountBelow(s, key, k) == CountBelow(s, key, k - 1) + CountKey(s, key, k - 1)
  {
    BelowStepDown(s, key, k);
  }

  /**
    BelowStep, stated for the group just below `k`. It is proved by its own
    induction, not derived from BelowStep at `k - 1`: callers that recurse on
    `k` hold terms in `k` and `k - 1`, and relating BelowStep's `k - 1 + 1`
    to their `k` costs the solver many times the whole proof.
   */
  lemma {:induction false} BelowStepDown<T>(s: seq<T>, key: T -> nat, k: nat)
    requires k > 0
    ensures multiset(Below(s, key, k)) == multiset(Below(s, key, k - 1)) + multiset(Filter(s, key, k - 1))
    ensures CountBelow(s, key, k) == CountBelow(s, key, k - 1) + CountKey(s, key, k - 1)
  {
    if s != [] {
      BelowStepDown(s[..|s| - 1], key, k);
    }
  }

  lemma {:induction false} BelowMonotone<T>(s: seq<T>, key: T -> nat, k: nat, k': nat)
    requires k <= k'
    ensures CountBelow(s, key, k) <= CountBelow(s, key, k')
    decreases k' - k
  {
    if k < k' {
      BelowStep(s, key, k);
      BelowMonotone(s, key, k + 1, k');
    }
  }

  /** Group `k` ends no later than where any later group starts. */
  lemma GroupBeforeLater<T>(s: seq<T>, key: T -> nat, k: nat, k': nat)
    requires k < k'
    ensures CountBelow(s, key, k) + CountKey(s, key, k) <= CountBelow(s, key, k')
  {
    BelowStep(s, key, k);
    BelowMonotone(s, key, k + 1, k');
  }

  /** Every position below `CountBelow(s, key, K)` falls in exactly one group `k < K`. */
  lemma {:induction false} FindGroup<T>(s: seq<T>, key: T -> nat, K: nat, p: nat) returns (k: nat)
    requires p < CountBelow(s, key, K)
    ensures k < K
    ensures CountBelow(s, key, k) <= p < CountBelow(s, key, k) + CountKey(s, key, k)
    ensures forall k': nat :: k' < K && CountBelow(s, key, k') <= p < CountBelow(s, key, k') + CountKey(s, key, k') ==> k' == k
  {
    BelowZero(s, key);
    CountBelowStepDown(s, key, K);
    if p < CountBelow(s, key, K - 1) {
      k := FindGroup(s, key, K - 1, p);
    } else {
      k := K - 1;
    }
    GroupUnique(s, key, K, p, k);
  }

  /** No other group's slot range contains a position that group `k`'s contains. */
  lemma GroupUnique<T>(s: seq<T>, key: T -> nat, K: nat, p: nat, k: nat)
    requires k < K && CountBelow(s, key, k) <= p < CountBelow(s, key, k) + CountKey(s, key, k)
    ensures forall k': nat :: k' < K && CountBelow(s, key, k') <= p < CountBelow(s, key, k') + CountKey(s, key, k') ==> k' == k
  {
    forall k': nat | k' < K && CountBelow(s, key, k') <= p < CountBelow(s, key, k') + CountKey(s, key, k')
      ensures k' == k
    {
      if k < k' {
        GroupBeforeLater(s, key, k, k');
      } else if k' < k {
        GroupBeforeLater(s, key, k', k);
      }
    }
  }

  // ---------------------------------------------------------------------------
  // The stable sort by key
  // ---------------------------------------------------------------------------

  lemma FilterKeys<T>(s: seq<T>, key: T -> nat, k: nat)
    ensures forall t :: 0 <= t < |Filter(s, key, k)| ==> key(Filter(s, key, k)[t]) == k
  {
  }

  /** Bucketed holds exactly the elements whose key is below `k`. */
  lemma {:induction false} BucketedElements<T>(s: seq<T>, key: T -> nat, k: nat)
    ensures multiset(Bucketed(s, key, k)) == multiset(Below(s, key, k))
    decreases k, 1
  {
    if k == 0 {
      BucketedElementsZero(s, key);
    } else {
      BucketedElementsStep(s, key, k);
    }
  }

  lemma BucketedElementsZero<T>(s: seq<T>, key: T -> nat)
    ensures multiset(Bucketed(s, key, 0)) == multiset(Below(s, key, 0))
  {
    BelowZero(s, key);
    assert Below(s, key, 0) == [];
  }

  /** Group `k - 1` joins both sides of BucketedElements at once. */
  lemma {:induction false} BucketedElementsStep<T>(s: seq<T>, key: T -> nat, k: nat)
    requires k > 0
    ensures multiset(Bucketed(s, key, k)) == multiset(Below(s, key, k))
    decreases k, 0
  {
    var a := Bucketed(s, key, k - 1);
    var b := Filter(s, key, k - 1);
    BucketedElements(s, key, k - 1);
    BelowStepDown(s, key, k);
    AppendSameElements(a, b, Below(s, key, k - 1), Below(s, key, k));
    assert Bucketed(s, key, k) == a + b;
  }

  lemma AppendSameElements<T>(a: seq<T>, b: seq<T>, c: seq<T>, d: seq<T>)
    requires multiset(a) == multiset(c)
    requires multiset(d) == multiset(c) + multiset(b)
    ensures multiset(a + b) == multiset(d)
  {
  }

  lemma BucketedLength<T>(s: seq<T>, key: T -> nat, k: nat)
    ensures |Bucketed(s, key, k)| == CountBelow(s, key, k)
  {
    BucketedElements(s, key, k);
    assert |multiset(Bucketed(s, key, k))| == |multiset(Below(s, key, k))|;
  }

  /** Group `k` occupies positions `CountBelow(s, key, k)` onwards of the bucketed sequence, in input order. */
  lemma {:induction false} BucketedAt<T>(s: seq<T>, key: T -> nat, K: nat, k: nat, t: nat)
    requires k < K && t < CountKey(s, key, k)
    ensures Slot(s, key, k, t) < |Bucketed(s, key, K)|
    ensures Bucketed(s, key, K)[Slot(s, key, k, t)] == Filter(s, key, k)[t]
  {
    BucketedLength(s, key, K - 1);
    BucketedLength(s, key, K);
    if k < K - 1 {
      GroupBeforeLater(s, key, k, K - 1);
      BucketedAt(s, key, K - 1, k, t);
    }
  }

  /** Bucketed is ordered by key, and every key in it is below `k`. */
  lemma {:induction false} BucketedSorted<T>(s: seq<T>, key: T -> nat, k: nat)
    ensures SortedByKey(Bucketed(s, key, k), key)
    ensures forall i :: 0 <= i < |Bucketed(s, key, k)| ==> key(Bucketed(s, key, k)[i]) < k
  {
    if k > 0 {
      BucketedSorted(s, key, k - 1);
      FilterKeys(s, key, k - 1);
      var a := Bucketed(s, key, k - 1);
      var b := Filter(s, key, k - 1);
      assert Bucketed(s, key, k) == a + b;
      forall i | 0 <= i < |a + b|
        ensures key((a + b)[i]) < k
        ensures i < |a| ==> key((a + b)[i]) < k - 1
        ensures i >= |a| ==> key((a + b)[i]) == k - 1
      {
        if i >= |a| {
          assert (a + b)[i] == b[i - |a|];
        }
      }
    }
  }

  lemma {:induction false} FilterConcat<T>(a: seq<T>, b: seq<T>, key: T -> nat, k: nat)
    ensures Filter(a + b, key, k) == Filter(a, key, k) + Filter(b, key, k)
    decreases |b|
  {
    if b == [] {
      assert a + b == a;
    } else {
      var b' := b[..|b| - 1];
      assert (a + b)[..|a + b| - 1] == a + b';
      FilterConcat(a, b', key, k);
    }
  }

  lemma {:induction false} FilterOfGroup<T>(s: seq<T>, key: T -> nat, k: nat, k': nat)
    ensures Filter(Filter(s, key, k'), key, k) == if k == k' then Filter(s, key, k) else []
  {
    if s != [] {
      var s' := s[..|s| - 1];
      var x := s[|s| - 1];
      FilterOfGroup(s', key, k, k');
      FilterConcat(Filter(s', key, k'), if key(x) == k' then [x] else [], key, k);
      if key(x) == k' {
        assert [x][..0] == [];
      }
    }
  }

  /** Bucketed keeps each group in input order. */
  lemma {:induction false} BucketedGroups<T>(s: seq<T>, key: T -> nat, j: nat, k: nat)
    ensures Filter(Bucketed(s, key, j), key, k) == if k < j then Filter(s, key, k) else []
  {
    if j > 0 {
      var i := j - 1;
      var a := Bucketed(s, key, i);
      var b := Filter(s, key, i);
      var f := Filter(s, key, k);
      var fa := Filter(a, key, k);
      var fb := Filter(b, key, k);
      assert Bucketed(s, key, j) == a + b;
      BucketedGroups(s, key, i, k);
      assert fa == if k < i then f else [];
      FilterOfGroup(s, key, k, i);
      assert fb == if k == i then f else [];
      FilterConcat(a, b, key, k);
      CombineGroups(fa, fb, f, i, k);
    }
  }

  /** The group of `k` in the first `i + 1` buckets: from the first `i`, or from bucket `i` itself. */
  lemma CombineGroups<T>(fa: seq<T>, fb: seq<T>, f: seq<T>, i: nat, k: nat)
    requires fa == if k < i then f else []
    requires fb == if k == i then f else []
    ensures fa + fb == if k <= i then f else []
  {
    if k < i {
      assert fa + fb == f + [];
    } else if k == i {
      assert fa + fb == [] + f;
    } else {
      assert fa + fb == [] + [];
    }
  }

  /**
    Bucketed is a stable sort: a permutation of the input, ordered by key,
    in which the elements of every key keep their input order.
   */
  lemma BucketedIsStableSort<T>(s: seq<T>, key: T -> nat, K: nat)
    requires KeysBelow(s, key, K)
    ensures multiset(Bucketed(s, key, K)) == multiset(s)
    ensures SortedByKey(Bucketed(s, key, K), key)
    ensures forall k :: Filter(Bucketed(s, key, K), key, k) == Filter(s, key, k)
  {
    BucketedElements(s, key, K);
    BelowAll(s, key, K);
    BucketedSorted(s, key, K);
    forall k: nat
      ensures Filter(Bucketed(s, key, K), key, k) == Filter(s, key, k)
    {
      BucketedGroups(s, key, K, k);
      if k >= K {
        NoGroupAtOrAbove(s, key, K, k);
      }
    }
  }

  lemma {:induction false} NoGroupAtOrAbove<T>(s: seq<T>, key: T -> nat, K: nat, k: nat)
    requires KeysBelow(s, key, K) && K <= k
    ensures Filter(s, key, k) == []
  {
    if s != [] {
      NoGroupAtOrAbove(s[..|s| - 1], key, K, k);
    }
  }
}
