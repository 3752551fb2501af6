/**
 * `Array.prototype.sort` with a comparator, as the search page uses it to
 * order results and groups in place. The engine's algorithm is not part of
 * the program; an insertion sort by adjacent swaps stands in for it. This
 * stand-in promises that the array is permuted and, for a comparator that
 * answers consistently in both directions, that no two neighbours are left
 * in the wrong order. For an inconsistent comparator the order a real
 * engine produces is implementation-defined.
 */
module Sorting {

  /**
   * The comparator answers consistently in both directions on the given
   * elements: `x` goes after `y` exactly when `y` goes before `x`.
   */
  predicate Antisymmetric<T(==)>(cmp: (T, T) -> int, xs: seq<T>) {
    forall x, y :: x in xs && y in xs ==> (cmp(x, y) > 0 <==> cmp(y, x) < 0)
  }

  /** No element is placed after a neighbour the comparator puts before it. */
  predicate AdjacentSorted<T>(xs: seq<T>, cmp: (T, T) -> int) {
    forall k :: 0 < k < |xs| ==> cmp(xs[k - 1], xs[k]) <= 0
  }

  /**
   * `a.sort(cmp)`. The result is always a permutation of the input; when
   * the comparator is antisymmetric on the input's elements, every pair of
   * neighbours is in order.
   */
  method Sort<T(==)>(a: array<T>, cmp: (T, T) -> int)
    modifies a
    ensures multiset(a[..]) == multiset(old(a[..]))
    ensures Antisymmetric(cmp, old(a[..])) ==> AdjacentSorted(a[..], cmp)
  {
    ghost var elements := a[..];
    for i := 0 to a.Length
      invariant multiset(a[..]) == multiset(elements)
      invariant Antisymmetric(cmp, elements) ==> AdjacentSorted(a[..i], cmp)
    {
      Insert(a, i, cmp, elements);
    }
    assert a[..a.Length] == a[..];
  }

  /** One step of Sort: the element at index `i` moves left past every greater neighbour. */
  method Insert<T(==)>(a: array<T>, i: int, cmp: (T, T) -> int, ghost elements: seq<T>)
    requires 0 <= i < a.Length
    requires multiset(a[..]) == multiset(elements)
    requires Antisymmetric(cmp, elements) ==> AdjacentSorted(a[..i], cmp)
    modifies a
    ensures multiset(a[..]) == multiset(elements)
    ensures Antisymmetric(cmp, elements) ==> AdjacentSorted(a[..i + 1], cmp)
  {
    ghost var consistent := Antisymmetric(cmp, elements);
    var j := i;
    while j > 0 && cmp(a[j - 1], a[j]) > 0
      invariant 0 <= j <= i
      invariant multiset(a[..]) == multiset(elements)
      invariant consistent ==> Inserting(a[..], cmp, j, i)
    {
      ghost var before := a[..];
      if consistent {
        assert before[j - 1] in multiset(elements) && before[j] in multiset(elements);
        SwapKeepsInserting(before, cmp, j, i);
      }
      SwapNeighbours(a, j);
      j := j - 1;
    }
    if consistent {
      InsertedIsSorted(a[..], cmp, j, i);
    }
  }

  /** Exchanges the element at `j` with its left neighbour. */
  method SwapNeighbours<T>(a: array<T>, j: int)
    requires 0 < j < a.Length
    modifies a
    ensures a[..] == old(a[..])[j - 1 := old(a[j])][j := old(a[j - 1])]
    ensures multiset(a[..]) == multiset(old(a[..]))
  {
    a[j - 1], a[j] := a[j], a[j - 1];
  }

  /**
   * The state of the inner loop of Sort while the element that started at
   * index `i` moves left and sits at index `j`: the elements before `j` are
   * in order, the elements from `j` to `i` are in order, and the neighbours
   * of index `j` are in order with each other.
   */
  predicate Inserting<T>(s: seq<T>, cmp: (T, T) -> int, j: int, i: int)
    requires 0 <= j <= i < |s|
  {
    && (forall k :: 0 < k < j ==> cmp(s[k - 1], s[k]) <= 0)
    && (forall k :: j < k <= i ==> cmp(s[k - 1], s[k]) <= 0)
    && (0 < j < i ==> cmp(s[j - 1], s[j + 1]) <= 0)
  }

  /** Swapping the element at `j` with its greater left neighbour moves it one step on. */
  lemma SwapKeepsInserting<T>(s: seq<T>, cmp: (T, T) -> int, j: int, i: int)
    requires 0 < j <= i < |s| && Inserting(s, cmp, j, i)
    requires cmp(s[j], s[j - 1]) < 0
    ensures Inserting(s[j - 1 := s[j]][j := s[j - 1]], cmp, j - 1, i)
  {
  }

  /** Once the element stops moving, the first `i + 1` elements are in order. */
  lemma InsertedIsSorted<T>(s: seq<T>, cmp: (T, T) -> int, j: int, i: int)
    requires 0 <= j <= i < |s| && Inserting(s, cmp, j, i)
    requires j > 0 ==> cmp(s[j - 1], s[j]) <= 0
    ensures AdjacentSorted(s[..i + 1], cmp)
  {
  }

  /**
   * When every element of higher rank compares after every element of
   * lower rank, a list with its neighbours in order lists the ranks in
   * non-decreasing order, however the comparator treats elements of equal
   * rank.
   */
  lemma {:induction false} RanksAscend<T>(xs: seq<T>, cmp: (T, T) -> int, rank: T -> int)
    requires AdjacentSorted(xs, cmp)
    requires forall x, y :: x in xs && y in xs && rank(x) > rank(y) ==> cmp(x, y) > 0
    ensures forall i, j :: 0 <= i <= j < |xs| ==> rank(xs[i]) <= rank(xs[j])
    decreases |xs|
  {
    if |xs| > 1 {
      var prefix := xs[..|xs| - 1];
      assert forall x :: x in prefix ==> x in xs;
      RanksAscend(prefix, cmp, rank);
      assert rank(xs[|xs| - 2]) <= rank(xs[|xs| - 1]) by {
        assert cmp(xs[|xs| - 2], xs[|xs| - 1]) <= 0;
      }
      forall i, j | 0 <= i <= j < |xs|
        ensures rank(xs[i]) <= rank(xs[j])
      {
        if j < |xs| - 1 {
          assert xs[i] == prefix[i] && xs[j] == prefix[j];
        } else if i < |xs| - 1 {
          assert xs[i] == prefix[i] && xs[|xs| - 2] == prefix[|xs| - 2];
        }
      }
    }
  }
}
