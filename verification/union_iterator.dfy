/**
  The k-way multiset union iterator (burst/iterator/union_iterator.hpp).

  The iterator keeps a list of non-empty windows over sorted input ranges,
  ascending by front. Its current element is the front of the first window;
  advancing moves every window whose front equals that element forward by one,
  drops the windows that ran out and re-sorts the rest. Each value comes out as
  many times as it occurs in the input range that holds it most often.
 */
module UnionIterator {
  import opened Windows

  /** The state of a union iterator: its vector of windows (`m_ranges`). */
  datatype Iterator = Iterator(windows: seq<Window>)

  /**
    What holds between public operations: no window is empty, the windows are
    ascending by front, and every window is sorted.
   */
  predicate Valid(it: Iterator) {
    SortedByFront(it.windows) && EachSorted(it.windows)
  }

  /** The default-constructed iterator, which is what the end-tag factory returns. */
  function End(): Iterator {
    Iterator([])
  }

  /** Sortedness of every window follows from membership in a list of sorted windows. */
  lemma EachSortedByMembers(a: seq<Window>, b: seq<Window>)
    requires EachSorted(a)
    requires forall w :: w in b ==> w in a
    ensures EachSorted(b)
  {
    forall j | 0 <= j < |b|
      ensures Sorted(b[j])
    {
      assert b[j] in b;
      var i :| 0 <= i < |a| && a[i] == b[j];
    }
  }

  lemma SameMembers(a: seq<Window>, b: seq<Window>)
    requires multiset(a) == multiset(b)
    ensures forall w :: w in a <==> w in b
  {
    forall w
      ensures w in a <==> w in b
    {
      assert w in a <==> w in multiset(a);
      assert w in b <==> w in multiset(b);
    }
  }

  // ---------------------------------------------------------------------------
  // Construction
  // ---------------------------------------------------------------------------

  /**
    The constructor: keep the non-empty input ranges and sort them by front.
    Every input range must already be sorted.
   */
  function Make(ranges: seq<seq<int>>): (it: Iterator)
    requires EachSorted(ranges)
    ensures Valid(it)
    ensures multiset(it.windows) == multiset(ranges)[[] := 0]
    ensures it == End() <==> forall i :: 0 <= i < |ranges| ==> ranges[i] == []
  {
    var kept := RemoveEmpty(ranges);
    MembersOfErased(ranges, kept);
    ErasedIsEmpty(ranges, kept);
    var sorted := SortByFront(kept);
    SameMembers(kept, sorted);
    EachSortedByMembers(ranges, sorted);
    Iterator(sorted)
  }

  // ---------------------------------------------------------------------------
  // Dereference and equality
  // ---------------------------------------------------------------------------

  /** The current element: the front of the first window, which is the least front and the least element left. */
  function Dereference(it: Iterator): (v: int)
    requires Valid(it) && it != End()
    ensures exists i :: 0 <= i < |it.windows| && v == it.windows[i][0]
    ensures forall i :: 0 <= i < |it.windows| ==> v <= it.windows[i][0]
    ensures forall i, j :: 0 <= i < |it.windows| && 0 <= j < |it.windows[i]| ==> v <= it.windows[i][j]
  {
    assert forall i, j :: 0 <= i < |it.windows| && 0 <= j < |it.windows[i]| ==>
      it.windows[i][0] <= it.windows[i][j];
    it.windows[0][0]
  }

  /** Iterators compare equal when their window lists are equal. */
  function Equal(a: Iterator, b: Iterator): (r: bool)
    ensures Valid(a) && b == End() ==> (r <==> Output(a) == [])
    ensures Valid(b) && a == End() ==> (r <==> Output(b) == [])
  {
    a.windows == b.windows
  }

  // ---------------------------------------------------------------------------
  // Increment
  // ---------------------------------------------------------------------------

  /** Reference behaviour: every window whose front equals `m` loses its front; the others stay. */
  function AdvanceMatching(ws: seq<Window>, m: int): seq<Window>
    requires NoEmptyWindow(ws)
  {
    seq(|ws|, i requires 0 <= i < |ws| => if ws[i][0] == m then ws[i][1..] else ws[i])
  }

  /** The windows before position `k` lose their front (`advance_begin(1)` on the prefix). */
  function AdvancePrefix(ws: seq<Window>, k: nat): seq<Window>
    requires k <= |ws| && NoEmptyWindow(ws)
  {
    seq(|ws|, i requires 0 <= i < |ws| => if i < k then ws[i][1..] else ws[i])
  }

  /**
    One step: find with `upper_bound` the prefix of windows whose front equals
    the current element, advance each of them by one, erase those that became
    empty and sort the rest by front again.
   */
  function Increment(it: Iterator): (next: Iterator)
    requires Valid(it) && it != End()
    ensures Valid(next)
    ensures multiset(next.windows) == multiset(AdvanceMatching(it.windows, Dereference(it)))[[] := 0]
    ensures next == End() <==> forall i :: 0 <= i < |it.windows| ==> it.windows[i] == [Dereference(it)]
    ensures TotalSize(next.windows) < TotalSize(it.windows)
  {
    var ws := it.windows;
    var m := ws[0][0];
    var k := UpperBound(ws, m);
    var advanced := AdvancePrefix(ws, k);
    PrefixIsMatching(ws, k);
    AdvancedWindows(ws, m);
    var kept := RemoveEmpty(advanced);
    MembersOfErased(advanced, kept);
    ErasedIsEmpty(advanced, kept);
    var sorted := SortByFront(kept);
    SameMembers(kept, sorted);
    EachSortedByMembers(advanced, sorted);
    Iterator(sorted)
  }

  /** The prefix `upper_bound` delimits is exactly the set of windows whose front equals the first one's. */
  lemma PrefixIsMatching(ws: seq<Window>, k: nat)
    requires SortedByFront(ws) && ws != [] && k <= |ws|
    requires forall i :: 0 <= i < k ==> ws[i][0] <= ws[0][0]
    requires forall i :: k <= i < |ws| ==> ws[0][0] < ws[i][0]
    ensures 0 < k
    ensures AdvancePrefix(ws, k) == AdvanceMatching(ws, ws[0][0])
  {
  }

  /** Advancing the windows that hold `m` keeps them sorted, consumes something, and empties them all only when each held just `m`. */
  lemma AdvancedWindows(ws: seq<Window>, m: int)
    requires SortedByFront(ws) && EachSorted(ws) && ws != [] && ws[0][0] == m
    ensures EachSorted(AdvanceMatching(ws, m))
    ensures TotalSize(AdvanceMatching(ws, m)) < TotalSize(ws)
    ensures (forall i :: 0 <= i < |ws| ==> AdvanceMatching(ws, m)[i] == []) <==>
            (forall i :: 0 <= i < |ws| ==> ws[i] == [m])
  {
    var advanced := AdvanceMatching(ws, m);
    forall i | 0 <= i < |ws|
      ensures Sorted(advanced[i])
      ensures advanced[i] == [] <==> ws[i] == [m]
    {
      AdvancedWindow(ws[i], m);
    }
    AdvancedSmaller(ws, m);
  }

  /** One window, advanced when its front is `m`. */
  lemma AdvancedWindow(w: Window, m: int)
    requires Sorted(w) && w != []
    ensures Sorted(if w[0] == m then w[1..] else w)
    ensures (if w[0] == m then w[1..] else w) == [] <==> w == [m]
  {
    assert w == [w[0]] + w[1..];
  }

  /** The first window always loses its front, so fewer elements are left. */
  lemma AdvancedSmaller(ws: seq<Window>, m: int)
    requires NoEmptyWindow(ws) && ws != [] && ws[0][0] == m
    ensures TotalSize(AdvanceMatching(ws, m)) < TotalSize(ws)
  {
    var advanced := AdvanceMatching(ws, m);
    assert |advanced[0]| < |ws[0]|;
    TotalSizePointwise(advanced[1..], ws[1..]);
  }

  // ---------------------------------------------------------------------------
  // The produced sequence
  // ---------------------------------------------------------------------------

  /** Everything the iterator yields from its current position until it equals the end iterator. */
  function Output(it: Iterator): (out: seq<int>)
    requires Valid(it)
    ensures |out| <= TotalSize(it.windows)
    ensures out == [] <==> it == End()
    decreases TotalSize(it.windows)
  {
    if it.windows == [] then [] else [Dereference(it)] + Output(Increment(it))
  }

  /** The iterator after `n` increments. */
  function Run(it: Iterator, n: nat): (r: Iterator)
    requires Valid(it) && n <= |Output(it)|
    ensures Valid(r)
    ensures Output(r) == Output(it)[n..]
    decreases n
  {
    if n == 0 then it
    else
      var next := Increment(it);
      assert Output(it) == [Dereference(it)] + Output(next);
      DropFirst(Dereference(it), Output(next), n);
      Run(next, n - 1)
  }

  lemma DropFirst(x: int, s: seq<int>, n: nat)
    requires 0 < n <= |s| + 1
    ensures ([x] + s)[n..] == s[n - 1..]
  {
  }

  /** The union of the input ranges: what a loop from `make_union_iterator(ranges)` to the end iterator reads. */
  function Union(ranges: seq<seq<int>>): seq<int>
    requires EachSorted(ranges)
  {
    Output(Make(ranges))
  }

  // ---------------------------------------------------------------------------
  // Properties
  // ---------------------------------------------------------------------------

  /**
    Incrementing exactly `|Output(it)|` times reaches the end iterator, and
    before that the n-th dereference reads the n-th element of the output.
   */
  lemma {:induction false} IterationReachesEnd(it: Iterator)
    requires Valid(it)
    ensures Run(it, |Output(it)|) == End()
    ensures forall n :: 0 <= n < |Output(it)| ==>
      Run(it, n) != End() && Dereference(Run(it, n)) == Output(it)[n]
  {
    var out := Output(it);
    assert Output(Run(it, |out|)) == out[|out|..] == [];
    forall n | 0 <= n < |out|
      ensures Run(it, n) != End() && Dereference(Run(it, n)) == out[n]
    {
      var r := Run(it, n);
      assert Output(r) == out[n..];
      OutputHead(r);
    }
  }

  /** A non-end iterator's output starts with its dereference. */
  lemma OutputHead(it: Iterator)
    requires Valid(it) && it != End()
    ensures Output(it) != [] && Output(it)[0] == Dereference(it)
  {
  }

  /** Per window: advancing windows whose front is `m` removes one `m` from them, nothing else. */
  lemma AdvanceMatchingCounts(ws: seq<Window>, m: int, v: int)
    requires NoEmptyWindow(ws) && EachSorted(ws)
    requires forall i :: 0 <= i < |ws| ==> m <= ws[i][0]
    ensures MaxCount(v, AdvanceMatching(ws, m)) == if v == m then Dec(MaxCount(v, ws)) else MaxCount(v, ws)
  {
    var adv := AdvanceMatching(ws, m);
    forall i | 0 <= i < |ws|
      ensures Count(v, adv[i]) == if v == m then Dec(Count(v, ws[i])) else Count(v, ws[i])
    {
      if ws[i][0] == m {
        CountTail(v, ws[i]);
      } else if v == m {
        CountBelowFront(v, ws[i]);
      }
    }
    if v == m {
      MaxCountPointwiseDec(v, ws, adv);
    } else {
      MaxCountPointwiseEqual(v, ws, adv);
    }
  }

  /**
    The multiplicity law: from any valid state, each value is produced as many
    times as it occurs in the window that holds it most often.
   */
  lemma {:induction false} OutputMultiplicity(it: Iterator, v: int)
    requires Valid(it)
    ensures Count(v, Output(it)) == MaxCount(v, it.windows)
    decreases TotalSize(it.windows)
  {
    if it.windows != [] {
      var next := Increment(it);
      IncrementCounts(it, v);
      OutputMultiplicity(next, v);
      assert Output(it) == [Dereference(it)] + Output(next);
      CountConcat(v, [Dereference(it)], Output(next));
    }
  }

  /** One increment takes one occurrence off the current element's largest multiplicity and leaves the other values alone. */
  lemma IncrementCounts(it: Iterator, v: int)
    requires Valid(it) && it != End()
    ensures MaxCount(Dereference(it), it.windows) >= 1
    ensures MaxCount(v, Increment(it).windows) ==
      if v == Dereference(it) then MaxCount(v, it.windows) - 1 else MaxCount(v, it.windows)
  {
    var ws := it.windows;
    var m := Dereference(it);
    var adv := AdvanceMatching(ws, m);
    var next := Increment(it).windows;
    assert multiset(next) == multiset(adv)[[] := 0];
    MaxCountErased(v, adv, next);
    AdvanceMatchingCounts(ws, m, v);
    CurrentIsCounted(ws);
  }

  /** Erasing empty windows does not change any largest multiplicity. */
  lemma MaxCountErased(v: int, a: seq<Window>, b: seq<Window>)
    requires multiset(b) == multiset(a)[[] := 0]
    ensures MaxCount(v, a) == MaxCount(v, b)
  {
    MembersOfErased(a, b);
    MaxCountByMembers(v, b, a);
    MaxCountByMembers(v, a, b);
  }

  /** The first front occurs in some window. */
  lemma CurrentIsCounted(ws: seq<Window>)
    requires ws != [] && ws[0] != []
    ensures MaxCount(ws[0][0], ws) >= 1
  {
    MaxCountBounds(ws[0][0], ws);
    assert ws[0][0] in multiset(ws[0]);
  }

  /** Nothing the iterator yields is smaller than its current element. */
  lemma OutputAboveCurrent(it: Iterator)
    requires Valid(it) && it != End()
    ensures forall x :: x in Output(it) ==> Dereference(it) <= x
  {
    var ws := it.windows;
    forall x | x in Output(it)
      ensures Dereference(it) <= x
    {
      OutputMultiplicity(it, x);
      assert x in multiset(Output(it));
      MaxCountBounds(x, ws);
      var i :| 0 <= i < |ws| && Count(x, ws[i]) == MaxCount(x, ws);
      assert x in multiset(ws[i]);
      var j :| 0 <= j < |ws[i]| && ws[i][j] == x;
    }
  }

  /** The order law: the produced sequence is non-decreasing. */
  lemma {:induction false} OutputSorted(it: Iterator)
    requires Valid(it)
    ensures Sorted(Output(it))
    decreases TotalSize(it.windows)
  {
    if it.windows != [] {
      var next := Increment(it);
      OutputSorted(next);
      OutputAboveCurrent(it);
      assert Output(it) == [Dereference(it)] + Output(next);
      forall y | y in Output(next)
        ensures Dereference(it) <= y
      {
        assert y in Output(it);
      }
      SortedCons(Dereference(it), Output(next));
    }
  }

  lemma SortedCons(x: int, s: seq<int>)
    requires Sorted(s)
    requires forall y :: y in s ==> x <= y
    ensures Sorted([x] + s)
  {
    var t := [x] + s;
    forall i, j | 0 <= i < j < |t|
      ensures t[i] <= t[j]
    {
      assert t[j] == s[j - 1] && s[j - 1] in s;
      if i > 0 {
        assert t[i] == s[i - 1];
      }
    }
  }

  /**
    The produced sequence depends only on which windows are held, not on
    their order. Hence the order `std::sort` leaves among windows with equal
    fronts cannot be observed.
   */
  lemma OutputDeterminedByWindows(a: Iterator, b: Iterator)
    requires Valid(a) && Valid(b)
    requires multiset(a.windows) == multiset(b.windows)
    ensures Output(a) == Output(b)
  {
    SameMembers(a.windows, b.windows);
    forall v
      ensures Count(v, Output(a)) == Count(v, Output(b))
    {
      OutputMultiplicity(a, v);
      OutputMultiplicity(b, v);
      MaxCountByMembers(v, a.windows, b.windows);
      MaxCountByMembers(v, b.windows, a.windows);
    }
    OutputSorted(a);
    OutputSorted(b);
    SortedSameCounts(Output(a), Output(b));
  }

  /** Sorted sequences holding every value equally often are equal. */
  lemma SortedSameCounts(x: seq<int>, y: seq<int>)
    requires Sorted(x) && Sorted(y)
    requires forall v :: Count(v, x) == Count(v, y)
    ensures x == y
  {
    assert multiset(x) == multiset(y) by {
      forall v
        ensures multiset(x)[v] == multiset(y)[v]
      {
        assert Count(v, x) == Count(v, y);
      }
    }
    SortedPermutationUnique(x, y);
  }

  /** Multiset union with maximum multiplicity, stated on the input ranges themselves. */
  lemma UnionMultiplicity(ranges: seq<seq<int>>, v: int)
    requires EachSorted(ranges)
    ensures Count(v, Union(ranges)) == MaxCount(v, ranges)
  {
    var it := Make(ranges);
    OutputMultiplicity(it, v);
    MembersOfErased(ranges, it.windows);
    MaxCountByMembers(v, ranges, it.windows);
    MaxCountByMembers(v, it.windows, ranges);
  }

  /** The union keeps the ordering. */
  lemma UnionSorted(ranges: seq<seq<int>>)
    requires EachSorted(ranges)
    ensures Sorted(Union(ranges))
  {
    OutputSorted(Make(ranges));
  }

  /** The union of a single sorted range is that range. */
  lemma UnionOfOne(s: seq<int>)
    requires Sorted(s)
    ensures Union([s]) == s
  {
    forall v
      ensures Count(v, s) == MaxCount(v, [s])
    {
      assert [s][1..] == [];
    }
    UnionCharacterized([s], s);
  }

  /**
    The union is characterised by the documented contract: a sequence is the
    union of the ranges exactly when it is ordered and holds every value as
    often as the range that holds it most often.
   */
  lemma UnionCharacterized(ranges: seq<seq<int>>, out: seq<int>)
    requires EachSorted(ranges)
    ensures Union(ranges) == out <==> Sorted(out) && forall v :: Count(v, out) == MaxCount(v, ranges)
  {
    UnionSorted(ranges);
    forall v
      ensures Count(v, Union(ranges)) == MaxCount(v, ranges)
    {
      UnionMultiplicity(ranges, v);
    }
    if Sorted(out) && forall v :: Count(v, out) == MaxCount(v, ranges) {
      assert multiset(Union(ranges)) == multiset(out) by {
        forall v
          ensures multiset(Union(ranges))[v] == multiset(out)[v]
        {
          assert Count(v, out) == MaxCount(v, ranges);
        }
      }
      SortedPermutationUnique(Union(ranges), out);
    }
  }
}
