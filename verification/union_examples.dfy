/**
  Worked unions of concrete ranges, under the natural ascending order. Each
  multi-range example goes through UnionIterator.UnionCharacterized: the
  expected output is ordered and holds every value as often as the range
  that holds it most often.
 */
module UnionExamples {
  import opened Windows
  import opened UnionIterator

  /** Three ranges sharing 1 and 2: 1 occurs twice in the first, 2 twice in the second. */
  lemma UnionOfThree()
    ensures EachSorted([[1, 1, 2], [1, 2, 2], [1]])
    ensures Union([[1, 1, 2], [1, 2, 2], [1]]) == [1, 1, 2, 2]
  {
    var ranges := [[1, 1, 2], [1, 2, 2], [1]];
    SortedThree();
    var out := [1, 1, 2, 2];
    assert Sorted(out);
    forall v
      ensures Count(v, out) == MaxCount(v, ranges)
    {
      CountsOfThree(v);
    }
    UnionCharacterized(ranges, out);
  }

  lemma SortedThree()
    ensures EachSorted([[1, 1, 2], [1, 2, 2], [1]])
  {
    var ranges := [[1, 1, 2], [1, 2, 2], [1]];
    assert Sorted(ranges[0]) && Sorted(ranges[1]) && Sorted(ranges[2]);
  }

  lemma CountsOfThree(v: int)
    ensures MaxCount(v, [[1, 1, 2], [1, 2, 2], [1]]) == Count(v, [1, 1, 2, 2])
  {
    var ranges := [[1, 1, 2], [1, 2, 2], [1]];
    var r1 := ranges[1..];
    var r2 := r1[1..];
    assert r1 == [[1, 2, 2], [1]];
    assert r2 == [[1]];
    assert r2[1..] == [];
    assert MaxCount(v, r2) == Count(v, [1]);
    assert MaxCount(v, r1) == Max(Count(v, [1, 2, 2]), Count(v, [1]));
    assert MaxCount(v, ranges) == Max(Count(v, [1, 1, 2]), Max(Count(v, [1, 2, 2]), Count(v, [1])));
    assert multiset([1, 1, 2]) == multiset{1, 1, 2};
    assert multiset([1, 2, 2]) == multiset{1, 2, 2};
    assert multiset([1]) == multiset{1};
    assert multiset([1, 1, 2, 2]) == multiset{1, 1, 2, 2};
  }

  /** Only empty ranges: the iterator starts at the end and yields nothing. */
  lemma UnionOfEmpties()
    ensures EachSorted([[], []])
    ensures Make([[], []]) == End()
    ensures Union([[], []]) == []
  {
    var ranges: seq<seq<int>> := [[], []];
    assert forall i :: 0 <= i < |ranges| ==> ranges[i] == [];
  }

  /** One range alone comes out unchanged, repeated values included. */
  lemma UnionOfRepeated()
    ensures EachSorted([[5, 5, 5]])
    ensures Union([[5, 5, 5]]) == [5, 5, 5]
  {
    assert Sorted([5, 5, 5]);
    UnionOfOne([5, 5, 5]);
  }

  /** 3 occurs twice in the first range and once in the second, so twice in the union. */
  lemma UnionOfTwo()
    ensures EachSorted([[1, 3, 3], [2, 3]])
    ensures Union([[1, 3, 3], [2, 3]]) == [1, 2, 3, 3]
  {
    var ranges := [[1, 3, 3], [2, 3]];
    SortedTwo();
    var out := [1, 2, 3, 3];
    assert Sorted(out);
    forall v
      ensures Count(v, out) == MaxCount(v, ranges)
    {
      CountsOfTwo(v);
    }
    UnionCharacterized(ranges, out);
  }

  lemma SortedTwo()
    ensures EachSorted([[1, 3, 3], [2, 3]])
  {
    var ranges := [[1, 3, 3], [2, 3]];
    assert Sorted(ranges[0]) && Sorted(ranges[1]);
  }

  lemma CountsOfTwo(v: int)
    ensures MaxCount(v, [[1, 3, 3], [2, 3]]) == Count(v, [1, 2, 3, 3])
  {
    var ranges := [[1, 3, 3], [2, 3]];
    var r1 := ranges[1..];
    assert r1 == [[2, 3]];
    assert r1[1..] == [];
    assert MaxCount(v, r1) == Count(v, [2, 3]);
    assert MaxCount(v, ranges) == Max(Count(v, [1, 3, 3]), Count(v, [2, 3]));
    assert multiset([1, 3, 3]) == multiset{1, 3, 3};
    assert multiset([2, 3]) == multiset{2, 3};
    assert multiset([1, 2, 3, 3]) == multiset{1, 2, 3, 3};
  }
}
