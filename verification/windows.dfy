/**
  Sorted input ranges and the windows the union iterator keeps over them.

  A window is the part of one input range that the iterator has not consumed
  yet. Elements are integers ordered by the natural `<`, so two elements are
  equivalent under the ordering exactly when they are equal.
 */
module Windows {

  /** The unconsumed part of one input range; its front is element 0. */
  type Window = seq<int>

  /** Non-decreasing under `<`: what `is_sorted` checks for each input range. */
  predicate Sorted(s: seq<int>) {
    forall i, j :: 0 <= i < j < |s| ==> s[i] <= s[j]
  }

  /** Number of occurrences of `v` in `s`. */
  function Count(v: int, s: seq<int>): nat {
    multiset(s)[v]
  }

  function Max(a: nat, b: nat): nat {
    if a < b then b else a
  }

  /** One fewer, but never below zero. */
  function Dec(c: nat): nat {
    if c == 0 then 0 else c - 1
  }

  /** Largest number of occurrences of `v` in any single window (0 when there is none). */
  function MaxCount(v: int, ws: seq<Window>): nat {
    if ws == [] then 0 else Max(Count(v, ws[0]), MaxCount(v, ws[1..]))
  }

  /** Number of elements left in all windows together. */
  function TotalSize(ws: seq<Window>): nat {
    if ws == [] then 0 else |ws[0]| + TotalSize(ws[1..])
  }

  predicate NoEmptyWindow(ws: seq<Window>) {
    forall i :: 0 <= i < |ws| ==> ws[i] != []
  }

  predicate EachSorted(ws: seq<Window>) {
    forall i :: 0 <= i < |ws| ==> Sorted(ws[i])
  }

  /** The order `compare_by_front_value` induces: windows ascending by their front. */
  predicate SortedByFront(ws: seq<Window>) {
    && NoEmptyWindow(ws)
    && forall i, j :: 0 <= i < j < |ws| ==> ws[i][0] <= ws[j][0]
  }

  // ---------------------------------------------------------------------------
  // Erasing exhausted windows (remove_if followed by erase)
  // ---------------------------------------------------------------------------

  /** What putting one window in front of others does to the list's measures. */
  lemma ConsWindow(w: Window, ws: seq<Window>)
    ensures ([w] + ws)[0] == w && ([w] + ws)[1..] == ws
    ensures TotalSize([w] + ws) == |w| + TotalSize(ws)
    ensures multiset([w] + ws) == multiset{w} + multiset(ws)
  {
    assert ([w] + ws)[1..] == ws;
  }

  /** Keeps the non-empty windows, in their order. */
  function RemoveEmpty(ws: seq<Window>): (r: seq<Window>)
    ensures NoEmptyWindow(r)
    ensures multiset(r) == multiset(ws)[[] := 0]
    ensures TotalSize(r) == TotalSize(ws)
  {
    if ws == [] then []
    else
      var rest := RemoveEmpty(ws[1..]);
      EraseStep(ws, rest);
      if ws[0] == [] then rest else [ws[0]] + rest
  }

  /** Erasing from the first window on, given the erasure of the others. */
  lemma EraseStep(ws: seq<Window>, rest: seq<Window>)
    requires ws != [] && NoEmptyWindow(rest)
    requires multiset(rest) == multiset(ws[1..])[[] := 0]
    requires TotalSize(rest) == TotalSize(ws[1..])
    ensures var r := if ws[0] == [] then rest else [ws[0]] + rest;
      NoEmptyWindow(r) && multiset(r) == multiset(ws)[[] := 0] && TotalSize(r) == TotalSize(ws)
  {
    ConsWindow(ws[0], ws[1..]);
    assert ws == [ws[0]] + ws[1..];
    EraseFromSum(ws[0], multiset(ws[1..]));
    if ws[0] != [] {
      ConsWindow(ws[0], rest);
    }
  }

  /** Erasing the empty windows from a multiset with one more window. */
  lemma EraseFromSum(w: Window, m: multiset<Window>)
    ensures (multiset{w} + m)[[] := 0] == if w == [] then m[[] := 0] else multiset{w} + m[[] := 0]
  {
    var lhs := (multiset{w} + m)[[] := 0];
    var rhs := if w == [] then m[[] := 0] else multiset{w} + m[[] := 0];
    forall x
      ensures lhs[x] == rhs[x]
    {
    }
  }

  /** The windows of `b` are exactly the non-empty windows of `a` when `b` holds `a` without its empty windows. */
  lemma MembersOfErased(a: seq<Window>, b: seq<Window>)
    requires multiset(b) == multiset(a)[[] := 0]
    ensures forall w :: w in b <==> w in a && w != []
  {
    forall w
      ensures w in b <==> w in a && w != []
    {
      assert w in b <==> w in multiset(b);
      assert w in a <==> w in multiset(a);
    }
  }

  /** Erasing the empty windows leaves nothing exactly when every window was empty. */
  lemma ErasedIsEmpty(a: seq<Window>, b: seq<Window>)
    requires multiset(b) == multiset(a)[[] := 0]
    ensures b == [] <==> forall i :: 0 <= i < |a| ==> a[i] == []
  {
    if b == [] {
      forall i | 0 <= i < |a|
        ensures a[i] == []
      {
        assert a[i] in multiset(a);
        assert multiset(b)[a[i]] == 0;
      }
    } else {
      MembersOfErased(a, b);
      assert b[0] in b;
      var i :| 0 <= i < |a| && a[i] == b[0];
    }
  }

  // ---------------------------------------------------------------------------
  // Re-sorting by front (std::sort with compare_by_front_value)
  // ---------------------------------------------------------------------------

  /** A window whose front is not above the first front can go in front of a list sorted by front. */
  lemma SortedByFrontCons(w: Window, ws: seq<Window>)
    requires w != [] && SortedByFront(ws)
    requires ws != [] ==> w[0] <= ws[0][0]
    ensures SortedByFront([w] + ws)
  {
    var r := [w] + ws;
    forall i, j | 0 <= i < j < |r|
      ensures r[i][0] <= r[j][0]
    {
      if i > 0 {
        assert r[i] == ws[i - 1] && r[j] == ws[j - 1];
      } else {
        assert r[j] == ws[j - 1];
      }
    }
  }

  /** Inserts `w` before the first window whose front is not smaller than its own. */
  function InsertByFront(w: Window, ws: seq<Window>): (r: seq<Window>)
    requires w != [] && SortedByFront(ws)
    ensures SortedByFront(r)
    ensures multiset(r) == multiset(ws) + multiset{w}
    ensures TotalSize(r) == TotalSize(ws) + |w|
    ensures |r| == |ws| + 1 && (r[0] == w || (ws != [] && r[0] == ws[0]))
  {
    if ws == [] || w[0] <= ws[0][0] then
      SortedByFrontCons(w, ws);
      ConsWindow(w, ws);
      [w] + ws
    else
      SortedByFrontTail(ws);
      var rest := InsertByFront(w, ws[1..]);
      InsertBehindFirst(w, ws, rest);
      [ws[0]] + rest
  }

  lemma SortedByFrontTail(ws: seq<Window>)
    requires SortedByFront(ws) && ws != []
    ensures SortedByFront(ws[1..])
  {
  }

  /** Putting the first window back in front of the insertion into the others. */
  lemma InsertBehindFirst(w: Window, ws: seq<Window>, rest: seq<Window>)
    requires w != [] && SortedByFront(ws) && ws != [] && ws[0][0] < w[0]
    requires SortedByFront(rest) && |rest| == |ws|
    requires multiset(rest) == multiset(ws[1..]) + multiset{w}
    requires TotalSize(rest) == TotalSize(ws[1..]) + |w|
    requires rest[0] == w || (|ws| > 1 && rest[0] == ws[1])
    ensures SortedByFront([ws[0]] + rest)
    ensures multiset([ws[0]] + rest) == multiset(ws) + multiset{w}
    ensures TotalSize([ws[0]] + rest) == TotalSize(ws) + |w|
  {
    FirstFrontBelow(w, ws, rest);
    SortedByFrontCons(ws[0], rest);
    ReplaceTail(ws, rest, w);
  }

  /** Replacing the tail of `ws` by one holding the same windows plus `w` adds `w` to the whole. */
  lemma ReplaceTail(ws: seq<Window>, rest: seq<Window>, w: Window)
    requires ws != []
    requires multiset(rest) == multiset(ws[1..]) + multiset{w}
    requires TotalSize(rest) == TotalSize(ws[1..]) + |w|
    ensures multiset([ws[0]] + rest) == multiset(ws) + multiset{w}
    ensures TotalSize([ws[0]] + rest) == TotalSize(ws) + |w|
  {
    ConsWindow(ws[0], rest);
    ConsWindow(ws[0], ws[1..]);
    assert ws == [ws[0]] + ws[1..];
  }

  lemma FirstFrontBelow(w: Window, ws: seq<Window>, rest: seq<Window>)
    requires SortedByFront(ws) && ws != [] && rest != [] && w != [] && ws[0][0] < w[0]
    requires rest[0] == w || (|ws| > 1 && rest[0] == ws[1])
    ensures ws[0][0] <= rest[0][0]
  {
  }

  /**
    Some ordering of `ws` ascending by front. `std::sort` is not stable, so the
    order among windows with equal fronts is not fixed by the library; this
    insertion sort is one admissible choice (see
    UnionIterator.OutputDeterminedByWindows for why the choice is unobservable).
   */
  function SortByFront(ws: seq<Window>): (r: seq<Window>)
    requires NoEmptyWindow(ws)
    ensures SortedByFront(r)
    ensures multiset(r) == multiset(ws)
    ensures TotalSize(r) == TotalSize(ws)
  {
    if ws == [] then []
    else
      assert ws == [ws[0]] + ws[1..];
      InsertByFront(ws[0], SortByFront(ws[1..]))
  }

  // ---------------------------------------------------------------------------
  // Finding the windows that hold the current minimum (boost::upper_bound)
  // ---------------------------------------------------------------------------

  /**
    Binary search for the first window in `[lo, hi)` whose front is strictly
    greater than `m`, knowing that every window before `lo` has front `<= m`
    and every window from `hi` on has front `> m`.
   */
  function UpperBoundIn(ws: seq<Window>, m: int, lo: nat, hi: nat): (k: nat)
    requires SortedByFront(ws) && lo <= hi <= |ws|
    requires forall i :: 0 <= i < lo ==> ws[i][0] <= m
    requires forall i :: hi <= i < |ws| ==> m < ws[i][0]
    ensures lo <= k <= hi
    ensures forall i :: 0 <= i < k ==> ws[i][0] <= m
    ensures forall i :: k <= i < |ws| ==> m < ws[i][0]
    decreases hi - lo
  {
    if lo == hi then lo
    else
      var mid := lo + (hi - lo) / 2;
      if m < ws[mid][0] then UpperBoundIn(ws, m, lo, mid)
      else UpperBoundIn(ws, m, mid + 1, hi)
  }

  /** Position of the first window whose front is strictly greater than `m`. */
  function UpperBound(ws: seq<Window>, m: int): (k: nat)
    requires SortedByFront(ws)
    ensures k <= |ws|
    ensures forall i :: 0 <= i < k ==> ws[i][0] <= m
    ensures forall i :: k <= i < |ws| ==> m < ws[i][0]
  {
    UpperBoundIn(ws, m, 0, |ws|)
  }

  // ---------------------------------------------------------------------------
  // Facts about counts
  // ---------------------------------------------------------------------------

  /** No element of a sorted window is smaller than its front. */
  lemma CountBelowFront(v: int, w: Window)
    requires Sorted(w) && w != [] && v < w[0]
    ensures Count(v, w) == 0
  {
  }

  /** Dropping the front of a window removes one occurrence of the front and nothing else. */
  lemma CountTail(v: int, w: Window)
    requires w != []
    ensures Count(v, w[1..]) == if v == w[0] then Count(v, w) - 1 else Count(v, w)
  {
    assert w == [w[0]] + w[1..];
  }

  lemma CountConcat(v: int, a: seq<int>, b: seq<int>)
    ensures Count(v, a + b) == Count(v, a) + Count(v, b)
  {
  }

  /** MaxCount is an upper bound of every window's count, and is attained when there is a window. */
  lemma {:induction false} MaxCountBounds(v: int, ws: seq<Window>)
    ensures forall i :: 0 <= i < |ws| ==> Count(v, ws[i]) <= MaxCount(v, ws)
    ensures ws != [] ==> exists i :: 0 <= i < |ws| && Count(v, ws[i]) == MaxCount(v, ws)
  {
    if ws != [] {
      MaxCountBounds(v, ws[1..]);
      forall i | 0 <= i < |ws|
        ensures Count(v, ws[i]) <= MaxCount(v, ws)
      {
        if i > 0 {
          assert ws[i] == ws[1..][i - 1];
        }
      }
      if Count(v, ws[0]) < MaxCount(v, ws[1..]) {
        var i :| 0 <= i < |ws[1..]| && Count(v, ws[1..][i]) == MaxCount(v, ws[1..]);
        assert ws[i + 1] == ws[1..][i];
      }
    }
  }

  /**
    MaxCount depends only on which non-empty windows are present: if every
    non-empty window of `a` also occurs in `b`, the maximum over `a` is at
    most the maximum over `b`.
   */
  lemma MaxCountByMembers(v: int, a: seq<Window>, b: seq<Window>)
    requires forall w :: w in a && w != [] ==> w in b
    ensures MaxCount(v, a) <= MaxCount(v, b)
  {
    MaxCountBounds(v, a);
    MaxCountBounds(v, b);
    if MaxCount(v, a) > 0 {
      var i :| 0 <= i < |a| && Count(v, a[i]) == MaxCount(v, a);
      assert a[i] != [];
      assert a[i] in b;
      var j :| 0 <= j < |b| && b[j] == a[i];
    }
  }

  /** Windows whose counts agree pointwise have the same MaxCount. */
  lemma {:induction false} MaxCountPointwiseEqual(v: int, a: seq<Window>, b: seq<Window>)
    requires |a| == |b|
    requires forall i :: 0 <= i < |a| ==> Count(v, a[i]) == Count(v, b[i])
    ensures MaxCount(v, a) == MaxCount(v, b)
  {
    if a != [] {
      MaxCountPointwiseEqual(v, a[1..], b[1..]);
    }
  }

  /** Lowering every window's count by one (but not below zero) lowers the maximum by one. */
  lemma {:induction false} MaxCountPointwiseDec(v: int, a: seq<Window>, b: seq<Window>)
    requires |a| == |b|
    requires forall i :: 0 <= i < |a| ==> Count(v, b[i]) == Dec(Count(v, a[i]))
    ensures MaxCount(v, b) == Dec(MaxCount(v, a))
  {
    if a != [] {
      MaxCountPointwiseDec(v, a[1..], b[1..]);
    }
  }

  lemma {:induction false} TotalSizePointwise(a: seq<Window>, b: seq<Window>)
    requires |a| == |b|
    requires forall i :: 0 <= i < |a| ==> |a[i]| <= |b[i]|
    ensures TotalSize(a) <= TotalSize(b)
  {
    if a != [] {
      TotalSizePointwise(a[1..], b[1..]);
    }
  }

  /** The first element of a sorted sequence is its least element. */
  lemma SortedFirstIsLeast(a: seq<int>)
    requires Sorted(a) && a != []
    ensures forall x :: x in a ==> a[0] <= x
  {
  }

  /** Dropping the first element keeps a sequence sorted and removes one occurrence of that element. */
  lemma SortedTail(a: seq<int>)
    requires Sorted(a) && a != []
    ensures Sorted(a[1..])
    ensures multiset(a[1..]) == multiset(a) - multiset{a[0]}
  {
    assert a == [a[0]] + a[1..];
  }

  /** Two sorted sequences with the same elements, counted with multiplicity, are equal. */
  lemma {:induction false} SortedPermutationUnique(a: seq<int>, b: seq<int>)
    requires Sorted(a) && Sorted(b)
    requires multiset(a) == multiset(b)
    ensures a == b
    decreases |a|
  {
    assert |a| == |multiset(a)| == |multiset(b)| == |b|;
    if a != [] {
      SortedFirstIsLeast(a);
      SortedFirstIsLeast(b);
      assert a[0] in multiset(b) && b[0] in multiset(a);
      assert a[0] in b && b[0] in a;
      assert a[0] == b[0];
      SortedTail(a);
      SortedTail(b);
      SortedPermutationUnique(a[1..], b[1..]);
      assert a == [a[0]] + a[1..];
      assert b == [b[0]] + b[1..];
    }
  }
}
