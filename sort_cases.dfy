/** Merge-insertion sort run as the tests run it: on every order of the
    first n letters with the comparator `a>b?0:1`, and on a shuffled list
    with `makeSimpleComp` of the sorted list; each run returns the names in
    the comparator's order. */
module SortCases {
  import opened Common
  import FordJohnson
  import Heap
  import TestUtils

  /** `([a, b]) => a > b ? 0 : 1`. */
  function Ascending(a: string, b: string): (r: Result<Bit>)
    ensures r.Ok?
    ensures NameLess(b, a) ==> r.value == 0
    ensures !NameLess(b, a) ==> r.value == 1
  {
    Ok(if NameLess(b, a) then 0 else 1)
  }

  function AscendingComp(): Comparator {
    (a, b) => Ascending(a, b)
  }

  /** The comparator answers every call as name order says. */
  lemma AscendingConsistent(names: seq<string>)
    ensures FordJohnson.Consistent(AscendingComp(), NameLess, names)
  {
    NameLessStrictTotal(names);
    forall a, b | a in names && b in names
      ensures NameLess(a, b) ==> AscendingComp()(a, b).value == 1
      ensures NameLess(b, a) ==> AscendingComp()(a, b).value == 0
    {
      NameLessTrichotomy(a, b);
    }
  }

  /** The one-letter names "A", "B", ... (`String.fromCharCode(65 + i)`). */
  function Letters(n: nat): (r: seq<string>)
    requires n <= 26
    ensures |r| == n && forall k :: 0 <= k < n ==> r[k] == [('A' as int + k) as char]
  {
    seq(n, k requires 0 <= k < n => [('A' as int + k) as char])
  }

  lemma LettersInOrder(n: nat)
    requires n <= 26
    ensures OrderedBy(NameLess, Letters(n))
  {
    var s := Letters(n);
    forall i, j | 0 <= i < j < n ensures !NameLess(s[j], s[i]) {
      assert s[j][0] > s[i][0];
    }
  }

  /** Sorting every order the generator yields, as the test loop does;
      every run returns the letters in order. */
  method SortEveryOrder(n: nat) returns (outcomes: seq<Result<seq<string>>>)
    requires n <= 26
    ensures |outcomes| == Factorial(n)
    ensures forall k :: 0 <= k < |outcomes| ==> outcomes[k] == Ok(Letters(n))
  {
    var letters := Letters(n);
    var perms := Heap.Permutations(letters);
    Heap.HeapOrderProperties(letters);
    LettersInOrder(n);
    outcomes := [];
    var k := 0;
    while k < |perms|
      invariant 0 <= k <= |perms| && |outcomes| == k
      invariant forall m :: 0 <= m < k ==> outcomes[m] == Ok(letters)
    {
      AscendingConsistent(perms[k]);
      var r, calls := FordJohnson.MergeInsertionSort(perms[k], AscendingComp(), NameLess);
      NameLessStrictTotal(r.value);
      OrderedUnique(NameLess, r.value, letters);
      outcomes := outcomes + [r];
      k := k + 1;
    }
  }

  // ----- a list comparator -----

  /** The order of first occurrence in `list` (a name not in it counts as
      coming before all listed ones). */
  function ListOrder(list: seq<string>): FordJohnson.Less {
    (a, b) => TestUtils.FirstBefore(list, a, b)
  }

  /** The order of first occurrence is a strict total order. */
  lemma ListOrderStrictTotal(list: seq<string>)
    ensures StrictTotalOn(ListOrder(list), list)
  {
    forall a, b | a in list && b in list && a != b
      ensures TestUtils.FirstBefore(list, a, b) || TestUtils.FirstBefore(list, b, a)
    {
      var i, j := TestUtils.IndexOf(list, a), TestUtils.IndexOf(list, b);
      assert list[i] == a && list[j] == b;
    }
  }

  /** `makeSimpleComp(list)` answers every call on names of the list as the
      list's order says. */
  lemma SimpleCompConsistent(list: seq<string>)
    ensures FordJohnson.Consistent(TestUtils.MakeSimpleComp(list), ListOrder(list), list)
  {
    ListOrderStrictTotal(list);
  }

  /** A list without repeats is in its own order. */
  lemma ListInOwnOrder(list: seq<string>)
    requires Distinct(list)
    ensures OrderedBy(ListOrder(list), list)
  {
    forall i, j | 0 <= i < j < |list| ensures !TestUtils.FirstBefore(list, list[j], list[i]) {
      TestUtils.FirstIndex(list, i);
      TestUtils.FirstIndex(list, j);
    }
  }

  /** Sorting an arrangement of a list without repeats with that list's
      comparator gives back the list. */
  method SortByList(list: seq<string>, items: seq<string>) returns (r: Result<seq<string>>)
    requires Distinct(list) && multiset(items) == multiset(list)
    ensures r == Ok(list)
  {
    var less := ListOrder(list);
    SimpleCompConsistent(list);
    assert forall x :: x in items ==> x in list by {
      forall x | x in items ensures x in list {
        assert x in multiset(items);
      }
    }
    FordJohnson.ConsistentPart(TestUtils.MakeSimpleComp(list), less, items, list);
    ghost var calls;
    r, calls := FordJohnson.MergeInsertionSort(items, TestUtils.MakeSimpleComp(list), less);
    ListInOwnOrder(list);
    forall x | x in r.value ensures x in list {
      assert x in multiset(r.value);
    }
    StrictTotalOnPart(less, r.value, list);
    OrderedUnique(less, r.value, list);
  }

  /** The sort in the call-count test: C, D, B, E, A under the comparator of
      A, B, C, D, E comes out as A, B, C, D, E. */
  method SortFiveByList() returns (r: Result<seq<string>>)
    ensures r == Ok(["A", "B", "C", "D", "E"])
  {
    var list := ["A", "B", "C", "D", "E"];
    var items := ["C", "D", "B", "E", "A"];
    assert NoRepeats(list);
    NoRepeatsDistinct(list);
    assert items == [list[2], list[3], list[1], list[4], list[0]];
    assert multiset(items) == multiset(list);
    r := SortByList(list, items);
  }
}
