/**
  Counting sort (burst/algorithm/sorting/detail/counting_sort.hpp).

  `collect` builds a table of counters whose entry `k` is the number of
  elements with a key below `k`; `dispose` then walks the input once and
  writes each element to the slot its key's counter names, bumping that
  counter. The result is the stable sort of the input by key, described by
  Buckets.Bucketed.

  The key function `map` becomes `key: T -> nat`; the unsigned image type is
  described by its width `bits`. The output range is a sequence `dest` of
  length `n` written one slot at a time.
 */
module CountingSort {
  import opened Buckets

  // ---------------------------------------------------------------------------
  // The range of the image type (counting_sort_traits::value_range)
  // ---------------------------------------------------------------------------

  /** Width of `int`: unsigned types narrower than this are promoted to `int` before `+ 1`. */
  const IntBits: nat := 32

  function Pow2(n: nat): (r: nat)
    ensures r > 0
  {
    if n == 0 then 1 else 2 * Pow2(n - 1)
  }

  /** `v` is a value of an unsigned integer type of `bits` bits: it has at most `bits` binary digits. */
  predicate IsImage(v: nat, bits: nat) {
    if bits == 0 then v == 0 else IsImage(v / 2, bits - 1)
  }

  /** The values with at most `bits` binary digits are exactly those below 2^bits. */
  lemma {:induction false} ImageBelow(v: nat, bits: nat)
    ensures IsImage(v, bits) <==> v < Pow2(bits)
  {
    if bits > 0 {
      ImageBelow(v / 2, bits - 1);
      HalfBelow(v, Pow2(bits - 1));
    }
  }

  lemma HalfBelow(v: nat, p: nat)
    ensures v / 2 < p <==> v < 2 * p
  {
  }

  lemma ImagesBelow(bits: nat)
    ensures forall v: nat :: IsImage(v, bits) <==> v < Pow2(bits)
  {
    forall v: nat
      ensures IsImage(v, bits) <==> v < Pow2(bits)
    {
      ImageBelow(v, bits);
    }
  }

  /** `std::numeric_limits<image_type>::max()` for an unsigned type of `bits` bits. */
  function MaxImage(bits: nat): (m: nat)
    ensures IsImage(m, bits) && !IsImage(m + 1, bits)
  {
    ImageBelow(Pow2(bits) - 1, bits);
    ImageBelow(Pow2(bits), bits);
    Pow2(bits) - 1
  }

  /**
    `max() + 1` as the expression evaluates in C++: for a type narrower than
    `int` the operands are promoted and the sum is exact; for a type at least
    as wide as `int` the addition happens in the unsigned type itself and
    wraps around modulo 2^bits.
   */
  function ValueRangeAsWritten(bits: nat): nat {
    if bits < IntBits then MaxImage(bits) + 1
    else (MaxImage(bits) + 1) % Pow2(bits)
  }

  /**
    The counter index `map(x) + 1` that `collect` increments for key `v`,
    evaluated with the same promotion rule as ValueRangeAsWritten.
   */
  function CounterIndexAsWritten(v: nat, bits: nat): nat {
    if bits < IntBits then v + 1 else (v + 1) % Pow2(bits)
  }

  /** Number of values of the image type: exactly the image values lie below it. */
  function ValueRange(bits: nat): (r: nat)
    ensures forall v: nat :: IsImage(v, bits) <==> v < r
  {
    ImagesBelow(bits);
    Pow2(bits)
  }

  /** For narrow image types the expression as written gives the intended range. */
  lemma ValueRangeNarrow(bits: nat)
    requires bits < IntBits
    ensures ValueRangeAsWritten(bits) == ValueRange(bits)
  {
  }

  /**
    For a 32-bit image type the expression as written wraps to 0, so the
    counters array has a single entry. The index `map(x) + 1` then falls
    outside that entry for every key except `max()`, whose index wraps to 0.
   */
  lemma ValueRangeWrapsAtIntWidth()
    ensures IsImage(0, IntBits)
    ensures ValueRangeAsWritten(IntBits) == 0
    ensures forall v: nat :: IsImage(v, IntBits) ==>
      (CounterIndexAsWritten(v, IntBits) < ValueRangeAsWritten(IntBits) + 1 <==> v == MaxImage(IntBits))
  {
    var p := Pow2(IntBits);
    assert (p - 1 + 1) % p == 0;
    ImagesBelow(IntBits);
    forall v: nat | IsImage(v, IntBits)
      ensures CounterIndexAsWritten(v, IntBits) < 1 <==> v == p - 1
    {
      WrappedSuccessor(v, p);
    }
  }

  /** Adding one modulo `p` to a value below `p` gives 0 only for `p - 1`. */
  lemma WrappedSuccessor(v: nat, p: nat)
    requires v < p
    ensures (v + 1) % p == 0 <==> v == p - 1
  {
    if v + 1 < p {
      assert (v + 1) % p == v + 1;
    }
  }

  // ---------------------------------------------------------------------------
  // collect
  // ---------------------------------------------------------------------------

  /** The counters after the counting pass: entry `k + 1` holds the number of elements with key `k`. */
  function Histogram<T>(s: seq<T>, key: T -> nat, K: nat): (h: seq<nat>)
    ensures |h| == K + 1
  {
    seq(K + 1, k requires 0 <= k <= K => if k == 0 then 0 else CountKey(s, key, k - 1))
  }

  /** Counting one more element bumps the entry after its key and nothing else. */
  lemma HistogramStep<T>(s: seq<T>, key: T -> nat, K: nat, i: nat)
    requires KeysBelow(s, key, K) && i < |s|
    ensures var h := Histogram(s[..i], key, K);
      Histogram(s[..i + 1], key, K) == h[key(s[i]) + 1 := h[key(s[i]) + 1] + 1]
  {
    var h := Histogram(s[..i], key, K);
    var h' := Histogram(s[..i + 1], key, K);
    forall k | 1 <= k <= K
      ensures h'[k] == h[key(s[i]) + 1 := h[key(s[i]) + 1] + 1][k]
    {
      FilterExtend(s, key, i, k - 1);
    }
  }

  /** The `std::for_each` pass of `collect`: entry `k + 1` counts the elements with key `k`. */
  method CountKeys<T>(input: seq<T>, key: T -> nat, K: nat) returns (counts: seq<nat>)
    requires KeysBelow(input, key, K)
    ensures counts == Histogram(input, key, K)
  {
    var c := new nat[K + 1](_ => 0);
    assert input[..0] == [];
    assert c[..] == Histogram(input[..0], key, K);
    var i := 0;
    while i < |input|
      invariant 0 <= i <= |input|
      invariant c[..] == Histogram(input[..i], key, K)
    {
      var x := input[i];
      HistogramStep(input, key, K, i);
      ghost var before := c[..];
      c[key(x) + 1] := c[key(x) + 1] + 1;
      assert c[..] == before[key(x) + 1 := before[key(x) + 1] + 1];
      i := i + 1;
    }
    assert input[..|input|] == input;
    counts := c[..];
  }

  /** The counters once `partial_sum` has reached entry `j`: prefix sums before it, counts from it on. */
  function PartialSums<T>(s: seq<T>, key: T -> nat, K: nat, j: nat): (c: seq<nat>)
    ensures |c| == K + 1
  {
    seq(K + 1, k requires 0 <= k <= K => if k < j then CountBelow(s, key, k) else Histogram(s, key, K)[k])
  }

  /** Entry 0 of the histogram is already its own prefix sum. */
  lemma PartialSumsStart<T>(s: seq<T>, key: T -> nat, K: nat)
    ensures PartialSums(s, key, K, 1) == Histogram(s, key, K)
  {
    BelowZero(s, key);
  }

  /** Adding the previous prefix sum to entry `j` makes it the prefix sum up to `j`. */
  lemma PartialSumsStep<T>(s: seq<T>, key: T -> nat, K: nat, j: nat)
    requires 1 <= j <= K
    ensures var c := PartialSums(s, key, K, j);
      PartialSums(s, key, K, j + 1) == c[j := c[j - 1] + c[j]]
  {
    var c := PartialSums(s, key, K, j);
    var c' := PartialSums(s, key, K, j + 1);
    assert c[j - 1] == CountBelow(s, key, j - 1);
    assert c[j] == Histogram(s, key, K)[j] == CountKey(s, key, j - 1);
    BelowStepDown(s, key, j);
    forall k | 0 <= k <= K
      ensures c'[k] == c[j := c[j - 1] + c[j]][k]
    {
    }
  }

  /**
    The `std::partial_sum` pass of `collect`, applied to the histogram:
    entry `k` becomes the number of elements whose key is below `k`.
   */
  method PrefixSums<T>(input: seq<T>, key: T -> nat, K: nat, counts: seq<nat>) returns (sums: seq<nat>)
    requires counts == Histogram(input, key, K)
    ensures |sums| == K + 1
    ensures forall k :: 0 <= k <= K ==> sums[k] == CountBelow(input, key, k)
  {
    var c := new nat[K + 1](k requires 0 <= k <= K => counts[k]);
    assert c[..] == counts;
    PartialSumsStart(input, key, K);
    var j := 1;
    while j <= K
      invariant 1 <= j <= K + 1
      invariant c[..] == PartialSums(input, key, K, j)
    {
      PartialSumsStep(input, key, K, j);
      ghost var before := c[..];
      c[j] := c[j - 1] + c[j];
      assert c[..] == before[j := before[j - 1] + before[j]];
      j := j + 1;
    }
    sums := c[..];
  }

  /**
    Counts each key into entry `key + 1`, then turns the table into prefix
    sums: entry `k` ends up as the number of elements whose key is below `k`.
   */
  method Collect<T>(input: seq<T>, key: T -> nat, K: nat) returns (counters: seq<nat>)
    requires KeysBelow(input, key, K)
    ensures |counters| == K + 1
    ensures forall k :: 0 <= k <= K ==> counters[k] == CountBelow(input, key, k)
    ensures counters[0] == 0 && counters[K] == |input|
    ensures forall k, k' :: 0 <= k <= k' <= K ==> counters[k] <= counters[k']
  {
    var counts := CountKeys(input, key, K);
    counters := PrefixSums(input, key, K, counts);
    BelowZero(input, key);
    BelowAll(input, key, K);
    forall k, k' | 0 <= k <= k' <= K
      ensures counters[k] <= counters[k']
    {
      BelowMonotone(input, key, k, k');
    }
  }

  // ---------------------------------------------------------------------------
  // dispose
  // ---------------------------------------------------------------------------

  /** The slot `dispose` gives to element `j` of `s`. */
  function Position<T>(s: seq<T>, key: T -> nat, j: nat): nat
    requires j < |s|
  {
    Slot(s, key, key(s[j]), CountKey(s[..j], key, key(s[j])))
  }

  /** Every element among the first `i` of `s` is already in its slot of `r`. */
  ghost predicate Placed<T>(s: seq<T>, key: T -> nat, K: nat, i: nat, r: seq<T>)
    requires i <= |s|
  {
    forall k, t :: 0 <= k < K && 0 <= t < CountKey(s[..i], key, k) ==>
      Slot(s, key, k, t) < |r| && r[Slot(s, key, k, t)] == Filter(s[..i], key, k)[t]
  }

  /** Group `k` fits in the output: its slots lie below the input's length. */
  lemma SlotInRange<T>(s: seq<T>, key: T -> nat, K: nat, k: nat, t: nat)
    requires KeysBelow(s, key, K) && k < K && t < CountKey(s, key, k)
    ensures Slot(s, key, k, t) < |s|
  {
    GroupBeforeLater(s, key, k, K);
    BelowAll(s, key, K);
  }

  /** Writing element `i` to its slot keeps the earlier placements and adds its own. */
  lemma PlaceStep<T>(s: seq<T>, key: T -> nat, K: nat, i: nat, r: seq<T>)
    requires KeysBelow(s, key, K) && i < |s| && |r| == |s|
    requires Placed(s, key, K, i, r)
    ensures Position(s, key, i) < |r|
    ensures Placed(s, key, K, i + 1, r[Position(s, key, i) := s[i]])
  {
    var x := s[i];
    var kx := key(x);
    var c := CountKey(s[..i], key, kx);
    var idx := Position(s, key, i);
    FilterAt(s, key, i);
    SlotInRange(s, key, K, kx, c);
    var r' := r[idx := x];
    forall k, t | 0 <= k < K && 0 <= t < CountKey(s[..i + 1], key, k)
      ensures Slot(s, key, k, t) < |r'| && r'[Slot(s, key, k, t)] == Filter(s[..i + 1], key, k)[t]
    {
      FilterExtend(s, key, i, k);
      FilterPrefix(s, key, i + 1, k);
      SlotInRange(s, key, K, k, t);
      if k == kx && t == c {
        assert Filter(s[..i + 1], key, k)[t] == x;
      } else {
        assert t < CountKey(s[..i], key, k);
        if k < kx {
          GroupBeforeLater(s, key, k, kx);
        } else if kx < k {
          GroupBeforeLater(s, key, kx, k);
        }
        assert Slot(s, key, k, t) != idx;
      }
    }
  }

  /** In a fully placed output, slot `t` of group `k` holds element `t` of that group. */
  lemma PlacedSlot<T>(s: seq<T>, key: T -> nat, K: nat, r: seq<T>, k: nat, t: nat)
    requires Placed(s, key, K, |s|, r)
    requires k < K && t < CountKey(s, key, k)
    ensures Slot(s, key, k, t) < |r| && r[Slot(s, key, k, t)] == Filter(s, key, k)[t]
  {
    assert s[..|s|] == s;
  }

  /** Once every element is placed, the output is the stable sort by key. */
  lemma PlacedIsBucketed<T>(s: seq<T>, key: T -> nat, K: nat, r: seq<T>)
    requires KeysBelow(s, key, K) && |r| == |s|
    requires Placed(s, key, K, |s|, r)
    ensures r == Bucketed(s, key, K)
  {
    BucketedLength(s, key, K);
    BelowAll(s, key, K);
    forall p | 0 <= p < |s|
      ensures r[p] == Bucketed(s, key, K)[p]
    {
      PlacedAtPosition(s, key, K, r, p);
    }
  }

  /** Position `p` of a fully placed output holds what the stable sort has there. */
  lemma PlacedAtPosition<T>(s: seq<T>, key: T -> nat, K: nat, r: seq<T>, p: nat)
    requires KeysBelow(s, key, K) && |r| == |s| && p < |s|
    requires Placed(s, key, K, |s|, r)
    ensures p < |Bucketed(s, key, K)| && r[p] == Bucketed(s, key, K)[p]
  {
    BelowAll(s, key, K);
    assert p < CountBelow(s, key, K);
    var k := FindGroup(s, key, K, p);
    var t := p - CountBelow(s, key, k);
    PlacedInGroup(s, key, K, r, k, t);
    assert Slot(s, key, k, t) == p;
  }

  /** Slot `t` of group `k` holds the same element in a fully placed output as in the stable sort. */
  lemma PlacedInGroup<T>(s: seq<T>, key: T -> nat, K: nat, r: seq<T>, k: nat, t: nat)
    requires Placed(s, key, K, |s|, r)
    requires k < K && t < CountKey(s, key, k)
    ensures Slot(s, key, k, t) < |Bucketed(s, key, K)|
    ensures Slot(s, key, k, t) < |r| && r[Slot(s, key, k, t)] == Bucketed(s, key, K)[Slot(s, key, k, t)]
  {
    PlacedSlot(s, key, K, r, k, t);
    BucketedAt(s, key, K, k, t);
  }

  /**
    Positions follow the stable order: element `i` goes before element `j`
    exactly when its key is smaller, or the keys are equal and `i` comes first.
   */
  lemma PositionOrder<T>(s: seq<T>, key: T -> nat, K: nat, i: nat, j: nat)
    requires KeysBelow(s, key, K) && i < |s| && j < |s|
    ensures Position(s, key, i) < |s|
    ensures Position(s, key, i) < Position(s, key, j) <==>
      key(s[i]) < key(s[j]) || (key(s[i]) == key(s[j]) && i < j)
  {
    FilterAt(s, key, i);
    FilterAt(s, key, j);
    SlotInRange(s, key, K, key(s[i]), CountKey(s[..i], key, key(s[i])));
    if key(s[i]) < key(s[j]) {
      GroupBeforeLater(s, key, key(s[i]), key(s[j]));
    } else if key(s[j]) < key(s[i]) {
      GroupBeforeLater(s, key, key(s[j]), key(s[i]));
    } else if i < j {
      CountKeyGrows(s, key, i, j);
    } else if j < i {
      CountKeyGrows(s, key, j, i);
    }
  }

  /** Element `j` is at its position in a fully placed output. */
  lemma PlacedAt<T>(s: seq<T>, key: T -> nat, K: nat, r: seq<T>, j: nat)
    requires KeysBelow(s, key, K) && j < |s|
    requires Placed(s, key, K, |s|, r)
    ensures Position(s, key, j) < |r| && r[Position(s, key, j)] == s[j]
  {
    assert s[..|s|] == s;
    FilterAt(s, key, j);
  }

  /** The counters after the first `i` elements are disposed of: each group's next free slot. */
  function Cursor<T>(s: seq<T>, key: T -> nat, K: nat, i: nat): (c: seq<nat>)
    requires i <= |s|
    ensures |c| == K + 1
  {
    seq(K + 1, k requires 0 <= k <= K => if k < K then Slot(s, key, k, CountKey(s[..i], key, k)) else |s|)
  }

  /** The slots of the first `i` elements. */
  function Positions<T>(s: seq<T>, key: T -> nat, i: nat): (ps: seq<nat>)
    requires i <= |s|
    ensures |ps| == i
  {
    seq(i, j requires 0 <= j < i => Position(s, key, j))
  }

  /** Before the first element, the counters are those `collect` produced and nothing is placed. */
  lemma DisposeStart<T>(s: seq<T>, key: T -> nat, K: nat, counters: seq<nat>, r: seq<T>)
    requires KeysBelow(s, key, K) && |counters| == K + 1
    requires forall k :: 0 <= k <= K ==> counters[k] == CountBelow(s, key, k)
    ensures counters == Cursor(s, key, K, 0)
    ensures Placed(s, key, K, 0, r)
  {
    var c := Cursor(s, key, K, 0);
    forall k | 0 <= k <= K
      ensures counters[k] == c[k]
    {
      if k < K {
        NothingCountedYet(s, key, k);
      } else {
        BelowAll(s, key, K);
      }
    }
    forall k | 0 <= k < K
      ensures CountKey(s[..0], key, k) == 0
    {
      NothingCountedYet(s, key, k);
    }
  }

  lemma NothingCountedYet<T>(s: seq<T>, key: T -> nat, k: nat)
    ensures CountKey(s[..0], key, k) == 0
  {
    assert s[..0] == [];
  }

  /**
    Disposing of element `i`: its key's counter names its slot, the counter
    moves one on, and writing the element there extends the placement.
   */
  lemma DisposeStep<T>(s: seq<T>, key: T -> nat, K: nat, i: nat, r: seq<T>, c: seq<nat>, ps: seq<nat>)
    requires KeysBelow(s, key, K) && i < |s| && |r| == |s|
    requires c == Cursor(s, key, K, i) && ps == Positions(s, key, i)
    requires Placed(s, key, K, i, r)
    ensures key(s[i]) < K
    ensures c[key(s[i])] == Position(s, key, i) < |r|
    ensures Cursor(s, key, K, i + 1) == c[key(s[i]) := c[key(s[i])] + 1]
    ensures Positions(s, key, i + 1) == ps + [c[key(s[i])]]
    ensures Placed(s, key, K, i + 1, r[c[key(s[i])] := s[i]])
  {
    PlaceStep(s, key, K, i, r);
    CursorStep(s, key, K, i);
    PositionsStep(s, key, i);
  }

  lemma PositionsStep<T>(s: seq<T>, key: T -> nat, i: nat)
    requires i < |s|
    ensures Positions(s, key, i + 1) == Positions(s, key, i) + [Position(s, key, i)]
  {
  }

  /** The counter of element `i`'s key names its slot, and the post-increment advances only that counter. */
  lemma CursorStep<T>(s: seq<T>, key: T -> nat, K: nat, i: nat)
    requires KeysBelow(s, key, K) && i < |s|
    ensures key(s[i]) < K
    ensures Cursor(s, key, K, i)[key(s[i])] == Position(s, key, i)
    ensures var c := Cursor(s, key, K, i);
      Cursor(s, key, K, i + 1) == c[key(s[i]) := c[key(s[i])] + 1]
  {
    var c := Cursor(s, key, K, i);
    var c' := Cursor(s, key, K, i + 1);
    forall k | 0 <= k < K
      ensures c'[k] == c[key(s[i]) := c[key(s[i])] + 1][k]
    {
      FilterExtend(s, key, i, k);
    }
  }

  /** After the last element, the placement is complete and the counters are the group ends. */
  lemma DisposeDone<T>(s: seq<T>, key: T -> nat, K: nat, r: seq<T>, c: seq<nat>, ps: seq<nat>)
    requires KeysBelow(s, key, K) && |r| == |s|
    requires c == Cursor(s, key, K, |s|) && ps == Positions(s, key, |s|)
    requires Placed(s, key, K, |s|, r)
    ensures forall j :: 0 <= j < |s| ==> ps[j] < |s| && r[ps[j]] == s[j]
    ensures forall i, j :: 0 <= i < |s| && 0 <= j < |s| ==>
      (ps[i] < ps[j] <==> key(s[i]) < key(s[j]) || (key(s[i]) == key(s[j]) && i < j))
    ensures r == Bucketed(s, key, K)
    ensures forall k :: 0 <= k < K ==> c[k] == CountBelow(s, key, k + 1)
    ensures c[K] == |s|
  {
    PlacedIsBucketed(s, key, K, r);
    forall j | 0 <= j < |s|
      ensures ps[j] < |s| && r[ps[j]] == s[j]
    {
      PlacedAt(s, key, K, r, j);
    }
    forall i, j | 0 <= i < |s| && 0 <= j < |s|
      ensures ps[i] < ps[j] <==> key(s[i]) < key(s[j]) || (key(s[i]) == key(s[j]) && i < j)
    {
      PositionOrder(s, key, K, i, j);
    }
    assert s[..|s|] == s;
    forall k | 0 <= k < K
      ensures c[k] == CountBelow(s, key, k + 1)
    {
      BelowStep(s, key, k);
    }
  }

  /**
    Moves every element to the slot its key's counter names and bumps the
    counter. `dest` is the output range as the caller hands it over; the
    result does not depend on its contents. `positions[j]` records where
    element `j` went; `final` is the counter table afterwards.
   */
  method Dispose<T>(input: seq<T>, key: T -> nat, K: nat, counters: seq<nat>, dest: seq<T>)
    returns (output: seq<T>, positions: seq<nat>, final: seq<nat>)
    requires KeysBelow(input, key, K)
    requires |dest| == |input|
    requires |counters| == K + 1
    requires forall k :: 0 <= k <= K ==> counters[k] == CountBelow(input, key, k)
    ensures |output| == |input| && |positions| == |input|
    ensures forall j :: 0 <= j < |input| ==> positions[j] < |input| && output[positions[j]] == input[j]
    ensures forall i, j :: 0 <= i < |input| && 0 <= j < |input| ==>
      (positions[i] < positions[j] <==>
        key(input[i]) < key(input[j]) || (key(input[i]) == key(input[j]) && i < j))
    ensures output == Bucketed(input, key, K)
    ensures |final| == K + 1
    ensures forall k :: 0 <= k < K ==> final[k] == CountBelow(input, key, k + 1)
    ensures final[K] == |input|
  {
    var result := dest;
    var c := counters;
    DisposeStart(input, key, K, counters, result);
    positions := [];
    var i := 0;
    while i < |input|
      invariant 0 <= i <= |input| && |result| == |input|
      invariant c == Cursor(input, key, K, i)
      invariant positions == Positions(input, key, i)
      invariant Placed(input, key, K, i, result)
    {
      var x := input[i];
      DisposeStep(input, key, K, i, result, c, positions);
      var index := c[key(x)];
      c := c[key(x) := index + 1];
      result := result[index := x];
      positions := positions + [index];
      i := i + 1;
    }
    output := result;
    final := c;
    DisposeDone(input, key, K, output, final, positions);
  }

  // ---------------------------------------------------------------------------
  // counting_sort_impl with the copying dispose
  // ---------------------------------------------------------------------------

  /**
    Sorts `input` stably by `key` into a new sequence and returns, as `end`,
    the length of the written range (`result + counters[value_range]`).
   */
  method CountingSortCopy<T>(input: seq<T>, key: T -> nat, bits: nat, dest: seq<T>) returns (output: seq<T>, end: nat)
    requires forall i :: 0 <= i < |input| ==> IsImage(key(input[i]), bits)
    requires |dest| == |input|
    ensures end == |output| == |input|
    ensures multiset(output) == multiset(input)
    ensures SortedByKey(output, key)
    ensures forall k: nat :: Filter(output, key, k) == Filter(input, key, k)
  {
    var K := ValueRange(bits);
    var counters := Collect(input, key, K);
    var positions, final;
    output, positions, final := Dispose(input, key, K, counters, dest);
    end := final[K];
    BucketedIsStableSort(input, key, K);
  }
}
