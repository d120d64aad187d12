/** The ranking tests written as lemmas: normalizing score lists, finding
    the groups of tied scores, and ranking by comparing every pair with the
    comparators the tests build. */
module RankingCases {
  import opened Common
  import opened Scores
  import opened Ranking
  import TestUtils

  /** The tests' `norm` helper: entries with empty names and the given scores. */
  function Unnamed(scores: seq<int>): (r: seq<Entry>)
    ensures |r| == |scores| && forall k :: 0 <= k < |scores| ==> r[k] == Entry("", scores[k])
  {
    seq(|scores|, k requires 0 <= k < |scores| => Entry("", scores[k]))
  }

  function ScoresOf(s: seq<Entry>): (r: seq<int>)
    ensures |r| == |s| && forall k :: 0 <= k < |s| ==> r[k] == s[k].score
  {
    seq(|s|, k requires 0 <= k < |s| => s[k].score)
  }

  lemma NormalizeShortLists()
    ensures ScoresOf(Normalize(Unnamed([]))) == []
    ensures ScoresOf(Normalize(Unnamed([0]))) == [0]
    ensures ScoresOf(Normalize(Unnamed([1]))) == [0]
    ensures ScoresOf(Normalize(Unnamed([42]))) == [0]
    ensures ScoresOf(Normalize(Unnamed([0, 1]))) == [0, 1]
    ensures ScoresOf(Normalize(Unnamed([0, 0]))) == [0, 0]
    ensures ScoresOf(Normalize(Unnamed([5, 10]))) == [0, 1]
    ensures ScoresOf(Normalize(Unnamed([5, 5]))) == [0, 0]
  {
  }

  lemma NormalizeFourScores()
    ensures ScoresOf(Normalize(Unnamed([0, 1, 2, 3]))) == [0, 1, 2, 3]
    ensures ScoresOf(Normalize(Unnamed([5, 10, 15, 20]))) == [0, 1, 2, 3]
    ensures ScoresOf(Normalize(Unnamed([10, 10, 10, 10]))) == [0, 0, 0, 0]
    ensures ScoresOf(Normalize(Unnamed([5, 10, 10, 15]))) == [0, 1, 1, 2]
    ensures ScoresOf(Normalize(Unnamed([5, 5, 10, 10]))) == [0, 0, 1, 1]
  {
  }

  lemma NormalizeFiveAndEight()
    ensures ScoresOf(Normalize(Unnamed([5, 5, 10, 15, 15]))) == [0, 0, 1, 2, 2]
    ensures ScoresOf(Normalize(Unnamed([5, 10, 10, 15, 20, 20, 20, 25]))) == [0, 1, 1, 2, 3, 3, 3, 4]
  {
  }

  lemma NormalizeNineScores()
    ensures ScoresOf(Normalize(Unnamed([5, 5, 10, 15, 15, 15, 20, 25, 25]))) == [0, 0, 1, 2, 2, 2, 3, 4, 4]
  {
  }

  /** A dense list comes back unchanged. */
  lemma NormalizeDenseNine()
    ensures ScoresOf(Normalize(Unnamed([0, 0, 1, 2, 2, 2, 3, 4, 4]))) == [0, 0, 1, 2, 2, 2, 3, 4, 4]
  {
  }

  lemma TieGroupsShortLists()
    ensures TieGroups([]) == []
    ensures TieGroups([Entry("A", 1)]) == []
    ensures TieGroups([Entry("A", 1), Entry("B", 1)]) == [(0, 2)]
    ensures TieGroups([Entry("A", 1), Entry("B", 1), Entry("C", 1)]) == [(0, 3)]
    ensures TieGroups([Entry("A", 1), Entry("B", 2), Entry("C", 3), Entry("D", 4)]) == []
    ensures TieGroups([Entry("A", 1), Entry("B", 2), Entry("C", 2), Entry("D", 3)]) == [(1, 3)]
    ensures TieGroups([Entry("A", 1), Entry("B", 1), Entry("C", 2), Entry("D", 2)]) == [(0, 2), (2, 4)]
  {
  }

  lemma TieGroupsFirstAndLast()
    ensures TieGroups([Entry("A", 1), Entry("B", 1), Entry("C", 2), Entry("D", 3), Entry("E", 3)]) == [(0, 2), (3, 5)]
  {
    var s := [Entry("A", 1), Entry("B", 1), Entry("C", 2), Entry("D", 3), Entry("E", 3)];
    assert RunsFrom(s, 3) == [(3, 5)];
    assert RunsFrom(s, 2) == [(3, 5)];
    assert RunsFrom(s, 0) == [(0, 2), (3, 5)];
  }

  lemma TieGroupsFromZero()
    ensures TieGroups([Entry("A", 0), Entry("B", 0), Entry("C", 1), Entry("D", 2), Entry("E", 2)]) == [(0, 2), (3, 5)]
  {
    var s := [Entry("A", 0), Entry("B", 0), Entry("C", 1), Entry("D", 2), Entry("E", 2)];
    assert RunsFrom(s, 3) == [(3, 5)];
    assert RunsFrom(s, 2) == [(3, 5)];
    assert RunsFrom(s, 0) == [(0, 2), (3, 5)];
  }

  lemma TieGroupsInside()
    ensures TieGroups([Entry("A", 1), Entry("B", 2), Entry("C", 2), Entry("D", 3), Entry("E", 4), Entry("F", 4), Entry("G", 4), Entry("H", 5)]) == [(1, 3), (4, 7)]
  {
    var s := [Entry("A", 1), Entry("B", 2), Entry("C", 2), Entry("D", 3), Entry("E", 4), Entry("F", 4), Entry("G", 4), Entry("H", 5)];
    assert RunsFrom(s, 7) == [];
    assert RunsFrom(s, 4) == [(4, 7)];
    assert RunsFrom(s, 3) == [(4, 7)];
    assert RunsFrom(s, 1) == [(1, 3), (4, 7)];
    assert RunsFrom(s, 0) == [(1, 3), (4, 7)];
  }

  lemma TieGroupsToEnd()
    ensures TieGroups([Entry("A", 1), Entry("B", 2), Entry("C", 2), Entry("D", 3), Entry("E", 4), Entry("F", 4), Entry("G", 4), Entry("H", 4)]) == [(1, 3), (4, 8)]
  {
    var s := [Entry("A", 1), Entry("B", 2), Entry("C", 2), Entry("D", 3), Entry("E", 4), Entry("F", 4), Entry("G", 4), Entry("H", 4)];
    assert RunsFrom(s, 4) == [(4, 8)];
    assert RunsFrom(s, 3) == [(4, 8)];
    assert RunsFrom(s, 1) == [(1, 3), (4, 8)];
    assert RunsFrom(s, 0) == [(1, 3), (4, 8)];
  }

  lemma TieGroupsThree()
    ensures TieGroups([Entry("A", 1), Entry("B", 2), Entry("C", 2), Entry("D", 3), Entry("E", 4), Entry("F", 4), Entry("G", 4), Entry("H", 5), Entry("I", 5), Entry("J", 5)]) == [(1, 3), (4, 7), (7, 10)]
  {
    var s := [Entry("A", 1), Entry("B", 2), Entry("C", 2), Entry("D", 3), Entry("E", 4), Entry("F", 4), Entry("G", 4), Entry("H", 5), Entry("I", 5), Entry("J", 5)];
    assert RunsFrom(s, 7) == [(7, 10)];
    assert RunsFrom(s, 4) == [(4, 7), (7, 10)];
    assert RunsFrom(s, 3) == [(4, 7), (7, 10)];
    assert RunsFrom(s, 1) == [(1, 3), (4, 7), (7, 10)];
    assert RunsFrom(s, 0) == [(1, 3), (4, 7), (7, 10)];
  }

  lemma RowsStep(n: nat, i: nat)
    requires i < n
    ensures Rows(n, i + 1) == Rows(n, i) + Row(n, i)
  {
  }

  lemma RowsOfFour()
    ensures Row(4, 0) == [(0, 1), (0, 2), (0, 3)] && Row(4, 1) == [(1, 2), (1, 3)]
    ensures Row(4, 2) == [(2, 3)] && Row(4, 3) == []
  {
    assert Row(4, 0) == [(0, 1), (0, 2), (0, 3)];
    assert Row(4, 1) == [(1, 2), (1, 3)];
  }

  lemma IndexPairsOfFour()
    ensures IndexPairs(4) == [(0, 1), (0, 2), (0, 3), (1, 2), (1, 3), (2, 3)]
  {
    RowsStep(4, 0);
    RowsStep(4, 1);
    RowsStep(4, 2);
    RowsStep(4, 3);
    RowsOfFour();
  }

  lemma IndexPairsOfThree()
    ensures IndexPairs(3) == [(0, 1), (0, 2), (1, 2)]
  {
    RowsStep(3, 0);
    RowsStep(3, 1);
    RowsStep(3, 2);
    assert Row(3, 0) == [(0, 1), (0, 2)];
    assert Row(3, 1) == [(1, 2)];
  }

  lemma IndexPairsOfTwo()
    ensures IndexPairs(2) == [(0, 1)]
  {
    RowsStep(2, 0);
    RowsStep(2, 1);
    assert Row(2, 0) == [(0, 1)];
  }

  lemma PairsOfFour<T>(x0: T, x1: T, x2: T, x3: T)
    ensures Pairs([x0, x1, x2, x3]) == [(x0, x1), (x0, x2), (x0, x3), (x1, x2), (x1, x3), (x2, x3)]
  {
    IndexPairsOfFour();
  }

  lemma PairsOfThree<T>(x0: T, x1: T, x2: T)
    ensures Pairs([x0, x1, x2]) == [(x0, x1), (x0, x2), (x1, x2)]
  {
    IndexPairsOfThree();
  }

  /** Every pair answered: the answers are the comparator's, in order. */
  lemma {:induction false} AnswersAll(ps: seq<(string, string)>, cmp: Comparator, ans: seq<Bit>)
    requires |ans| == |ps| && forall k :: 0 <= k < |ps| ==> cmp(ps[k].0, ps[k].1) == Ok(ans[k])
    ensures Answers(ps, cmp) == Ok(ans)
    decreases |ps|
  {
    if ps != [] {
      AnswersAll(ps[..|ps| - 1], cmp, ans[..|ans| - 1]);
      assert ans == ans[..|ans| - 1] + [ans[|ans| - 1]];
    }
  }

  lemma CompareAllFrom(items: seq<string>, cmp: Comparator, ps: seq<(string, string)>, ans: seq<Bit>, sorted: seq<Entry>)
    requires NoRepeats(items) && Pairs(items) == ps
    requires |ans| == |ps| && Answers(ps, cmp) == Ok(ans)
    requires Sorted(Asc, sorted) && multiset(sorted) == multiset(Tally(items, ps, ans))
    ensures CompareAll(items, cmp) == Ok(Normalize(sorted))
    ensures CompareAllCalls(items, cmp) == Pairs(items)
  {
    NoRepeatsDistinct(items);
    SetSizeDetectsDuplicates(items);
    SortedUnique(Asc, sorted, SortSeq(Asc, Tally(items, Pairs(items), ans)));
    AnswersOk(Pairs(items), cmp);
  }

  /** `makeSimpleComp(['A','B','C','D'])` on the pairs of ['C','D','B','A']. */
  lemma SimpleAnswersOfFour()
    ensures Answers([("C", "D"), ("C", "B"), ("C", "A"), ("D", "B"), ("D", "A"), ("B", "A")],
                    TestUtils.MakeSimpleComp(["A", "B", "C", "D"])) == Ok([1, 0, 0, 0, 0, 0])
  {
    assert Distinct(["A", "B", "C", "D"]) by {
      assert "A"[0] != "B"[0] && "A"[0] != "C"[0] && "A"[0] != "D"[0];
      assert "B"[0] != "C"[0] && "B"[0] != "D"[0] && "C"[0] != "D"[0];
    }
    SimpleAnswersInOrder("A", "B", "C", "D");
  }

  /** The list comparator on four distinct names x0 < x1 < x2 < x3, asked
      about the pairs of [x2, x3, x1, x0]. */
  lemma SimpleAnswersInOrder(x0: string, x1: string, x2: string, x3: string)
    requires Distinct([x0, x1, x2, x3])
    ensures Answers([(x2, x3), (x2, x1), (x2, x0), (x3, x1), (x3, x0), (x1, x0)],
                    TestUtils.MakeSimpleComp([x0, x1, x2, x3])) == Ok([1, 0, 0, 0, 0, 0])
  {
    var order := [x0, x1, x2, x3];
    TestUtils.SimpleFollowsList(order, 2, 3);
    TestUtils.SimpleFollowsList(order, 2, 1);
    TestUtils.SimpleFollowsList(order, 2, 0);
    TestUtils.SimpleFollowsList(order, 3, 1);
    TestUtils.SimpleFollowsList(order, 3, 0);
    TestUtils.SimpleFollowsList(order, 1, 0);
    AnswersAll([(x2, x3), (x2, x1), (x2, x0), (x3, x1), (x3, x0), (x1, x0)],
               TestUtils.MakeSimpleComp(order), [1, 0, 0, 0, 0, 0]);
  }

  lemma LettersDistinct()
    ensures NoRepeats(["C", "D", "B", "A"])
  {
    assert "A"[0] != "B"[0] && "A"[0] != "C"[0] && "A"[0] != "D"[0];
    assert "B"[0] != "C"[0] && "B"[0] != "D"[0] && "C"[0] != "D"[0];
    assert ["C", "D", "B", "A"][1..] == ["D", "B", "A"];
    assert ["D", "B", "A"][1..] == ["B", "A"];
    assert ["B", "A"][1..] == ["A"];
  }

  lemma FourInOrder(a: string, b: string, c: string, d: string)
    ensures var s := [Entry(a, 0), Entry(b, 1), Entry(c, 2), Entry(d, 3)];
      Sorted(Asc, s) && Dense(s)
  { }

  lemma Shuffled<T>(a: T, b: T, c: T, d: T)
    ensures multiset([a, b, c, d]) == multiset([c, d, b, a])
  { }

  lemma SimpleSortOfFour()
    ensures CompareAll(["C", "D", "B", "A"], TestUtils.MakeSimpleComp(["A", "B", "C", "D"])) ==
              Ok([Entry("A", 0), Entry("B", 1), Entry("C", 2), Entry("D", 3)])
    ensures |CompareAllCalls(["C", "D", "B", "A"], TestUtils.MakeSimpleComp(["A", "B", "C", "D"]))| == 6
  {
    var items := ["C", "D", "B", "A"];
    var ps := [("C", "D"), ("C", "B"), ("C", "A"), ("D", "B"), ("D", "A"), ("B", "A")];
    var ans: seq<Bit> := [1, 0, 0, 0, 0, 0];
    var sorted := [Entry("A", 0), Entry("B", 1), Entry("C", 2), Entry("D", 3)];
    PairsOfFour("C", "D", "B", "A");
    SimpleAnswersOfFour();
    LettersDistinct();
    TallyOfFour("C", "D", "B", "A");
    FourInOrder("A", "B", "C", "D");
    Shuffled(Entry("A", 0), Entry("B", 1), Entry("C", 2), Entry("D", 3));
    assert Tally(items, ps, ans) == [Entry("C", 2), Entry("D", 3), Entry("B", 1), Entry("A", 0)];
    CompareAllFrom(items, TestUtils.MakeSimpleComp(["A", "B", "C", "D"]), ps, ans, sorted);
    NormalizeFixesDense(sorted);
  }

  /** One more answered pair adds one win to its winner only. */
  lemma WinsSnoc(ps: seq<(string, string)>, ans: seq<Bit>, p: (string, string), b: Bit)
    requires |ps| == |ans|
    ensures forall x :: Wins(x, ps + [p], ans + [b]) == Wins(x, ps, ans) + (if Winner(p, b) == x then 1 else 0)
  {
    assert (ps + [p])[..|ps|] == ps && (ans + [b])[..|ans|] == ans;
  }

  /** The wins of four different names when the pairs are answered 1, 0, 0, 0, 0, 0. */
  lemma TallyOfFour(x0: string, x1: string, x2: string, x3: string)
    requires x0 != x1 && x0 != x2 && x0 != x3 && x1 != x2 && x1 != x3 && x2 != x3
    ensures Tally([x0, x1, x2, x3], [(x0, x1), (x0, x2), (x0, x3), (x1, x2), (x1, x3), (x2, x3)], [1, 0, 0, 0, 0, 0]) ==
              [Entry(x0, 2), Entry(x1, 3), Entry(x2, 1), Entry(x3, 0)]
  {
    var p0, a0: seq<Bit> := [], [];
    var p1, a1 := p0 + [(x0, x1)], a0 + [1];
    var p2, a2 := p1 + [(x0, x2)], a1 + [0];
    var p3, a3 := p2 + [(x0, x3)], a2 + [0];
    var p4, a4 := p3 + [(x1, x2)], a3 + [0];
    var p5, a5 := p4 + [(x1, x3)], a4 + [0];
    var p6, a6 := p5 + [(x2, x3)], a5 + [0];
    WinsSnoc(p0, a0, (x0, x1), 1);
    WinsSnoc(p1, a1, (x0, x2), 0);
    WinsSnoc(p2, a2, (x0, x3), 0);
    WinsSnoc(p3, a3, (x1, x2), 0);
    WinsSnoc(p4, a4, (x1, x3), 0);
    WinsSnoc(p5, a5, (x2, x3), 0);
    assert p6 == [(x0, x1), (x0, x2), (x0, x3), (x1, x2), (x1, x3), (x2, x3)];
    assert a6 == [1, 0, 0, 0, 0, 0];
    var t := Tally([x0, x1, x2, x3], p6, a6);
    assert t[0] == Entry(x0, 2) && t[1] == Entry(x1, 3) && t[2] == Entry(x2, 1) && t[3] == Entry(x3, 0);
  }

  /** Alice beats Bob, Carol beats Alice, Bob beats Carol. */
  function CyclicTable(): map<string, Bit> {
    map["A\0B" := 0, "A\0C" := 1, "B\0C" := 0]
  }

  lemma LettersOrdered()
    ensures NameLess("A", "B") && NameLess("A", "C") && NameLess("B", "C")
    ensures !NameLess("B", "A") && !NameLess("C", "A") && !NameLess("C", "B")
  {
  }

  lemma CyclicAnswers()
    ensures Answers([("C", "A"), ("C", "B"), ("A", "B")], TestUtils.MakeCustomComp(CyclicTable())) == Ok([0, 1, 0])
  {
    LettersOrdered();
    var t := CyclicTable();
    assert "A" + ['\0'] + "C" == "A\0C" && "B" + ['\0'] + "C" == "B\0C" && "A" + ['\0'] + "B" == "A\0B";
    assert TestUtils.CustomAnswer(t, "C", "A") == Ok(0);
    assert TestUtils.CustomAnswer(t, "C", "B") == Ok(1);
    assert TestUtils.CustomAnswer(t, "A", "B") == Ok(0);
    AnswersAll([("C", "A"), ("C", "B"), ("A", "B")], TestUtils.MakeCustomComp(t), [0, 1, 0]);
  }

  lemma TallyOfThree(x0: string, x1: string, x2: string)
    requires x0 != x1 && x0 != x2 && x1 != x2
    ensures Tally([x0, x1, x2], [(x0, x1), (x0, x2), (x1, x2)], [0, 1, 0]) ==
              [Entry(x0, 1), Entry(x1, 1), Entry(x2, 1)]
  {
    var p0, a0: seq<Bit> := [], [];
    var p1, a1 := p0 + [(x0, x1)], a0 + [0];
    var p2, a2 := p1 + [(x0, x2)], a1 + [1];
    var p3, a3 := p2 + [(x1, x2)], a2 + [0];
    WinsSnoc(p0, a0, (x0, x1), 0);
    WinsSnoc(p1, a1, (x0, x2), 1);
    WinsSnoc(p2, a2, (x1, x2), 0);
    assert p3 == [(x0, x1), (x0, x2), (x1, x2)];
    assert a3 == [0, 1, 0];
    var t := Tally([x0, x1, x2], p3, a3);
    assert t[0] == Entry(x0, 1) && t[1] == Entry(x1, 1) && t[2] == Entry(x2, 1);
  }

  lemma ThreeTied(a: string, b: string, c: string)
    requires NameLess(a, b) && NameLess(b, c)
    ensures var s := [Entry(a, 1), Entry(b, 1), Entry(c, 1)];
      Sorted(Asc, s) && Normalize(s) == [Entry(a, 0), Entry(b, 0), Entry(c, 0)]
  {
    NameLessTransitive(a, b, c);
  }

  lemma CabDistinct()
    ensures NoRepeats(["C", "A", "B"])
  {
    LettersOrdered();
    NameLessIrreflexive("A");
    assert ["C", "A", "B"][1..] == ["A", "B"] && ["A", "B"][1..] == ["B"];
  }

  lemma Rotated<T>(a: T, b: T, c: T)
    ensures multiset([a, b, c]) == multiset([c, a, b])
  { }

  lemma CyclicTie()
    ensures CompareAll(["C", "A", "B"], TestUtils.MakeCustomComp(CyclicTable())) ==
              Ok([Entry("A", 0), Entry("B", 0), Entry("C", 0)])
    ensures |CompareAllCalls(["C", "A", "B"], TestUtils.MakeCustomComp(CyclicTable()))| == 3
  {
    var items := ["C", "A", "B"];
    var ps := [("C", "A"), ("C", "B"), ("A", "B")];
    var ans: seq<Bit> := [0, 1, 0];
    var sorted := [Entry("A", 1), Entry("B", 1), Entry("C", 1)];
    PairsOfThree("C", "A", "B");
    CyclicAnswers();
    CabDistinct();
    LettersOrdered();
    NameLessIrreflexive("A");
    TallyOfThree("C", "A", "B");
    ThreeTied("A", "B", "C");
    Rotated(Entry("A", 1), Entry("B", 1), Entry("C", 1));
    CompareAllFrom(items, TestUtils.MakeCustomComp(CyclicTable()), ps, ans, sorted);
  }

  /** No items: nothing is asked and the ranking is empty. */
  lemma RankNothing(cmp: Comparator)
    ensures CompareAll([], cmp) == Ok([]) && CompareAllCalls([], cmp) == []
  {
    assert IndexPairs(0) == [];
  }

  lemma PairsOfTwo<T>(x0: T, x1: T)
    ensures Pairs([x0, x1]) == [(x0, x1)]
  {
    IndexPairsOfTwo();
  }

  lemma TallyOfTwo(x0: string, x1: string)
    requires x0 != x1
    ensures Tally([x0, x1], [(x0, x1)], [0]) == [Entry(x0, 1), Entry(x1, 0)]
    ensures Tally([x0, x1], [(x0, x1)], [1]) == [Entry(x0, 0), Entry(x1, 1)]
  {
    WinsSnoc([], [], (x0, x1), 0);
    WinsSnoc([], [], (x0, x1), 1);
    assert [] + [(x0, x1)] == [(x0, x1)];
    assert [] + [0 as Bit] == [0] && [] + [1 as Bit] == [1];
  }

  lemma TwoInOrder(a: string, b: string)
    ensures var s := [Entry(a, 0), Entry(b, 1)];
      Sorted(Asc, s) && Dense(s) && multiset(s) == multiset([Entry(b, 1), Entry(a, 0)])
  { }

  /** Two items in either order: one call, and the name that comes first in
      the list of `makeSimpleComp` ranks first. */
  lemma SimpleSortOfTwo()
    ensures CompareAll(["B", "A"], TestUtils.MakeSimpleComp(["A", "B", "C", "D"])) == Ok([Entry("A", 0), Entry("B", 1)])
    ensures |CompareAllCalls(["B", "A"], TestUtils.MakeSimpleComp(["A", "B", "C", "D"]))| == 1
  {
    var order := ["A", "B", "C", "D"];
    var cmp := TestUtils.MakeSimpleComp(order);
    TestUtils.SimpleFollowsList(order, 1, 0);
    PairsOfTwo("B", "A");
    LettersOrdered();
    AnswersAll([("B", "A")], cmp, [0]);
    TallyOfTwo("B", "A");
    TwoInOrder("A", "B");
    var sorted := [Entry("A", 0), Entry("B", 1)];
    CompareAllFrom(["B", "A"], cmp, [("B", "A")], [0], sorted);
    NormalizeFixesDense(sorted);
  }

  lemma SimpleSortOfTwoInOrder()
    ensures CompareAll(["A", "B"], TestUtils.MakeSimpleComp(["A", "B", "C", "D"])) == Ok([Entry("A", 0), Entry("B", 1)])
    ensures |CompareAllCalls(["A", "B"], TestUtils.MakeSimpleComp(["A", "B", "C", "D"]))| == 1
  {
    var order := ["A", "B", "C", "D"];
    var cmp := TestUtils.MakeSimpleComp(order);
    TestUtils.SimpleFollowsList(order, 0, 1);
    PairsOfTwo("A", "B");
    LettersOrdered();
    AnswersAll([("A", "B")], cmp, [1]);
    TallyOfTwo("A", "B");
    TwoInOrder("A", "B");
    var sorted := [Entry("A", 0), Entry("B", 1)];
    CompareAllFrom(["A", "B"], cmp, [("A", "B")], [1], sorted);
    NormalizeFixesDense(sorted);
  }
}
