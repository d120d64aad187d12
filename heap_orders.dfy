/** The orders Heap's algorithm yields for up to four elements, worked out
    step by step, with their count and their distinctness. */
module HeapOrders {
  import opened Common
  import opened Heap

  /** The empty input yields one empty order. */
  lemma HeapOrderOfNone<T>()
    ensures HeapOrder<T>([]) == [[]]
  {
  }

  /** One element yields itself once. */
  lemma HeapOrderOfOne<T>(x0: T)
    ensures HeapOrder([x0]) == [[x0]]
  {
  }

  // Each Step lemma below evaluates a stretch of the loop from one state
  // (the array, the level counters and the level i): the arrays it yields
  // and the state it reaches. For four elements the stretches are joined
  // into four Block lemmas of six orders each.

  lemma TwoStep0<T>(x0: T, x1: T)
    ensures Run([x0, x1], [0, 0], 1) == [[x1, x0]]
  {
    RunReset([x1, x0], [0, 1], 1, [0, 0]);
    RunYield([x0, x1], [0, 0], 1, [x1, x0], [0, 1]);
  }

  /** The two orders of two elements. */
  lemma HeapOrderOfTwo<T>(x0: T, x1: T)
    ensures HeapOrder([x0, x1]) == [[x0, x1], [x1, x0]]
  {
    TwoStep0(x0, x1);
    assert Zeros(2) == [0, 0];
  }

  lemma ThreeStep0<T>(x0: T, x1: T, x2: T)
    ensures Run([x0, x1, x2], [0, 0, 0], 1) == [[x1, x0, x2], [x2, x0, x1], [x0, x2, x1], [x1, x2, x0], [x2, x1, x0]]
  {
    ThreeStep1(x0, x1, x2);
    RunYield([x1, x0, x2], [0, 0, 0], 2, [x2, x0, x1], [0, 0, 1]);
    RunReset([x1, x0, x2], [0, 1, 0], 1, [0, 0, 0]);
    RunYield([x0, x1, x2], [0, 0, 0], 1, [x1, x0, x2], [0, 1, 0]);
  }

  lemma ThreeStep1<T>(x0: T, x1: T, x2: T)
    ensures Run([x2, x0, x1], [0, 0, 1], 1) == [[x0, x2, x1], [x1, x2, x0], [x2, x1, x0]]
  {
    ThreeStep2(x0, x1, x2);
    RunYield([x0, x2, x1], [0, 0, 1], 2, [x1, x2, x0], [0, 0, 2]);
    RunReset([x0, x2, x1], [0, 1, 1], 1, [0, 0, 1]);
    RunYield([x2, x0, x1], [0, 0, 1], 1, [x0, x2, x1], [0, 1, 1]);
  }

  lemma ThreeStep2<T>(x0: T, x1: T, x2: T)
    ensures Run([x1, x2, x0], [0, 0, 2], 1) == [[x2, x1, x0]]
  {
    RunReset([x2, x1, x0], [0, 0, 2], 2, [0, 0, 0]);
    RunReset([x2, x1, x0], [0, 1, 2], 1, [0, 0, 2]);
    RunYield([x1, x2, x0], [0, 0, 2], 1, [x2, x1, x0], [0, 1, 2]);
  }

  /** The six orders of three elements, in the order the generator yields them. */
  lemma HeapOrderOfThree<T>(x0: T, x1: T, x2: T)
    ensures HeapOrder([x0, x1, x2]) == [[x0, x1, x2], [x1, x0, x2], [x2, x0, x1], [x0, x2, x1], [x1, x2, x0], [x2, x1, x0]]
  {
    ThreeStep0(x0, x1, x2);
    assert Zeros(3) == [0, 0, 0];
  }

  lemma FourBlock0<T>(x0: T, x1: T, x2: T, x3: T)
    ensures Run([x0, x1, x2, x3], [0, 0, 0, 0], 1) == [[x1, x0, x2, x3], [x2, x0, x1, x3], [x0, x2, x1, x3], [x1, x2, x0, x3], [x2, x1, x0, x3]] + Run([x2, x1, x0, x3], [0, 1, 2, 0], 1)
  {
    FourStep0(x0, x1, x2, x3);
    FourStep1(x0, x1, x2, x3);
    FourStep2(x0, x1, x2, x3);
  }

  lemma FourStep0<T>(x0: T, x1: T, x2: T, x3: T)
    ensures Run([x0, x1, x2, x3], [0, 0, 0, 0], 1) == [[x1, x0, x2, x3]] + Run([x1, x0, x2, x3], [0, 1, 0, 0], 1)
  {
    RunYield([x0, x1, x2, x3], [0, 0, 0, 0], 1, [x1, x0, x2, x3], [0, 1, 0, 0]);
  }

  lemma FourStep1<T>(x0: T, x1: T, x2: T, x3: T)
    ensures Run([x1, x0, x2, x3], [0, 1, 0, 0], 1) == [[x2, x0, x1, x3], [x0, x2, x1, x3]] + Run([x0, x2, x1, x3], [0, 1, 1, 0], 1)
  {
    RunReset([x1, x0, x2, x3], [0, 1, 0, 0], 1, [0, 0, 0, 0]);
    RunYield([x1, x0, x2, x3], [0, 0, 0, 0], 2, [x2, x0, x1, x3], [0, 0, 1, 0]);
    RunYield([x2, x0, x1, x3], [0, 0, 1, 0], 1, [x0, x2, x1, x3], [0, 1, 1, 0]);
  }

  lemma FourStep2<T>(x0: T, x1: T, x2: T, x3: T)
    ensures Run([x0, x2, x1, x3], [0, 1, 1, 0], 1) == [[x1, x2, x0, x3], [x2, x1, x0, x3]] + Run([x2, x1, x0, x3], [0, 1, 2, 0], 1)
  {
    RunReset([x0, x2, x1, x3], [0, 1, 1, 0], 1, [0, 0, 1, 0]);
    RunYield([x0, x2, x1, x3], [0, 0, 1, 0], 2, [x1, x2, x0, x3], [0, 0, 2, 0]);
    RunYield([x1, x2, x0, x3], [0, 0, 2, 0], 1, [x2, x1, x0, x3], [0, 1, 2, 0]);
  }

  lemma FourBlock1<T>(x0: T, x1: T, x2: T, x3: T)
    ensures Run([x2, x1, x0, x3], [0, 1, 2, 0], 1) == [[x3, x1, x0, x2], [x1, x3, x0, x2], [x0, x3, x1, x2], [x3, x0, x1, x2], [x1, x0, x3, x2], [x0, x1, x3, x2]] + Run([x0, x1, x3, x2], [0, 1, 2, 1], 1)
  {
    FourStep3(x0, x1, x2, x3);
    FourStep4(x0, x1, x2, x3);
    FourStep5(x0, x1, x2, x3);
  }

  lemma FourStep3<T>(x0: T, x1: T, x2: T, x3: T)
    ensures Run([x2, x1, x0, x3], [0, 1, 2, 0], 1) == [[x3, x1, x0, x2], [x1, x3, x0, x2]] + Run([x1, x3, x0, x2], [0, 1, 0, 1], 1)
  {
    RunReset([x2, x1, x0, x3], [0, 1, 2, 0], 1, [0, 0, 2, 0]);
    RunReset([x2, x1, x0, x3], [0, 0, 2, 0], 2, [0, 0, 0, 0]);
    RunYield([x2, x1, x0, x3], [0, 0, 0, 0], 3, [x3, x1, x0, x2], [0, 0, 0, 1]);
    RunYield([x3, x1, x0, x2], [0, 0, 0, 1], 1, [x1, x3, x0, x2], [0, 1, 0, 1]);
  }

  lemma FourStep4<T>(x0: T, x1: T, x2: T, x3: T)
    ensures Run([x1, x3, x0, x2], [0, 1, 0, 1], 1) == [[x0, x3, x1, x2], [x3, x0, x1, x2]] + Run([x3, x0, x1, x2], [0, 1, 1, 1], 1)
  {
    RunReset([x1, x3, x0, x2], [0, 1, 0, 1], 1, [0, 0, 0, 1]);
    RunYield([x1, x3, x0, x2], [0, 0, 0, 1], 2, [x0, x3, x1, x2], [0, 0, 1, 1]);
    RunYield([x0, x3, x1, x2], [0, 0, 1, 1], 1, [x3, x0, x1, x2], [0, 1, 1, 1]);
  }

  lemma FourStep5<T>(x0: T, x1: T, x2: T, x3: T)
    ensures Run([x3, x0, x1, x2], [0, 1, 1, 1], 1) == [[x1, x0, x3, x2], [x0, x1, x3, x2]] + Run([x0, x1, x3, x2], [0, 1, 2, 1], 1)
  {
    RunReset([x3, x0, x1, x2], [0, 1, 1, 1], 1, [0, 0, 1, 1]);
    RunYield([x3, x0, x1, x2], [0, 0, 1, 1], 2, [x1, x0, x3, x2], [0, 0, 2, 1]);
    RunYield([x1, x0, x3, x2], [0, 0, 2, 1], 1, [x0, x1, x3, x2], [0, 1, 2, 1]);
  }

  lemma FourBlock2<T>(x0: T, x1: T, x2: T, x3: T)
    ensures Run([x0, x1, x3, x2], [0, 1, 2, 1], 1) == [[x0, x2, x3, x1], [x2, x0, x3, x1], [x3, x0, x2, x1], [x0, x3, x2, x1], [x2, x3, x0, x1], [x3, x2, x0, x1]] + Run([x3, x2, x0, x1], [0, 1, 2, 2], 1)
  {
    FourStep6(x0, x1, x2, x3);
    FourStep7(x0, x1, x2, x3);
    FourStep8(x0, x1, x2, x3);
  }

  lemma FourStep6<T>(x0: T, x1: T, x2: T, x3: T)
    ensures Run([x0, x1, x3, x2], [0, 1, 2, 1], 1) == [[x0, x2, x3, x1], [x2, x0, x3, x1]] + Run([x2, x0, x3, x1], [0, 1, 0, 2], 1)
  {
    RunReset([x0, x1, x3, x2], [0, 1, 2, 1], 1, [0, 0, 2, 1]);
    RunReset([x0, x1, x3, x2], [0, 0, 2, 1], 2, [0, 0, 0, 1]);
    RunYield([x0, x1, x3, x2], [0, 0, 0, 1], 3, [x0, x2, x3, x1], [0, 0, 0, 2]);
    RunYield([x0, x2, x3, x1], [0, 0, 0, 2], 1, [x2, x0, x3, x1], [0, 1, 0, 2]);
  }

  lemma FourStep7<T>(x0: T, x1: T, x2: T, x3: T)
    ensures Run([x2, x0, x3, x1], [0, 1, 0, 2], 1) == [[x3, x0, x2, x1], [x0, x3, x2, x1]] + Run([x0, x3, x2, x1], [0, 1, 1, 2], 1)
  {
    RunReset([x2, x0, x3, x1], [0, 1, 0, 2], 1, [0, 0, 0, 2]);
    RunYield([x2, x0, x3, x1], [0, 0, 0, 2], 2, [x3, x0, x2, x1], [0, 0, 1, 2]);
    RunYield([x3, x0, x2, x1], [0, 0, 1, 2], 1, [x0, x3, x2, x1], [0, 1, 1, 2]);
  }

  lemma FourStep8<T>(x0: T, x1: T, x2: T, x3: T)
    ensures Run([x0, x3, x2, x1], [0, 1, 1, 2], 1) == [[x2, x3, x0, x1], [x3, x2, x0, x1]] + Run([x3, x2, x0, x1], [0, 1, 2, 2], 1)
  {
    RunReset([x0, x3, x2, x1], [0, 1, 1, 2], 1, [0, 0, 1, 2]);
    RunYield([x0, x3, x2, x1], [0, 0, 1, 2], 2, [x2, x3, x0, x1], [0, 0, 2, 2]);
    RunYield([x2, x3, x0, x1], [0, 0, 2, 2], 1, [x3, x2, x0, x1], [0, 1, 2, 2]);
  }

  lemma FourBlock3<T>(x0: T, x1: T, x2: T, x3: T)
    ensures Run([x3, x2, x0, x1], [0, 1, 2, 2], 1) == [[x3, x2, x1, x0], [x2, x3, x1, x0], [x1, x3, x2, x0], [x3, x1, x2, x0], [x2, x1, x3, x0], [x1, x2, x3, x0]]
  {
    FourStep9(x0, x1, x2, x3);
    FourStep10(x0, x1, x2, x3);
    FourStep11(x0, x1, x2, x3);
    FourStep12(x0, x1, x2, x3);
  }

  lemma FourStep9<T>(x0: T, x1: T, x2: T, x3: T)
    ensures Run([x3, x2, x0, x1], [0, 1, 2, 2], 1) == [[x3, x2, x1, x0], [x2, x3, x1, x0]] + Run([x2, x3, x1, x0], [0, 1, 0, 3], 1)
  {
    RunReset([x3, x2, x0, x1], [0, 1, 2, 2], 1, [0, 0, 2, 2]);
    RunReset([x3, x2, x0, x1], [0, 0, 2, 2], 2, [0, 0, 0, 2]);
    RunYield([x3, x2, x0, x1], [0, 0, 0, 2], 3, [x3, x2, x1, x0], [0, 0, 0, 3]);
    RunYield([x3, x2, x1, x0], [0, 0, 0, 3], 1, [x2, x3, x1, x0], [0, 1, 0, 3]);
  }

  lemma FourStep10<T>(x0: T, x1: T, x2: T, x3: T)
    ensures Run([x2, x3, x1, x0], [0, 1, 0, 3], 1) == [[x1, x3, x2, x0], [x3, x1, x2, x0]] + Run([x3, x1, x2, x0], [0, 1, 1, 3], 1)
  {
    RunReset([x2, x3, x1, x0], [0, 1, 0, 3], 1, [0, 0, 0, 3]);
    RunYield([x2, x3, x1, x0], [0, 0, 0, 3], 2, [x1, x3, x2, x0], [0, 0, 1, 3]);
    RunYield([x1, x3, x2, x0], [0, 0, 1, 3], 1, [x3, x1, x2, x0], [0, 1, 1, 3]);
  }

  lemma FourStep11<T>(x0: T, x1: T, x2: T, x3: T)
    ensures Run([x3, x1, x2, x0], [0, 1, 1, 3], 1) == [[x2, x1, x3, x0], [x1, x2, x3, x0]] + Run([x1, x2, x3, x0], [0, 1, 2, 3], 1)
  {
    RunReset([x3, x1, x2, x0], [0, 1, 1, 3], 1, [0, 0, 1, 3]);
    RunYield([x3, x1, x2, x0], [0, 0, 1, 3], 2, [x2, x1, x3, x0], [0, 0, 2, 3]);
    RunYield([x2, x1, x3, x0], [0, 0, 2, 3], 1, [x1, x2, x3, x0], [0, 1, 2, 3]);
  }

  lemma FourStep12<T>(x0: T, x1: T, x2: T, x3: T)
    ensures Run([x1, x2, x3, x0], [0, 1, 2, 3], 1) == []
  {
    RunReset([x1, x2, x3, x0], [0, 1, 2, 3], 1, [0, 0, 2, 3]);
    RunReset([x1, x2, x3, x0], [0, 0, 2, 3], 2, [0, 0, 0, 3]);
    RunReset([x1, x2, x3, x0], [0, 0, 0, 3], 3, [0, 0, 0, 0]);
  }

  /** The 24 orders of four elements, in the order the generator yields them. */
  lemma HeapOrderOfFour<T>(x0: T, x1: T, x2: T, x3: T)
    ensures HeapOrder([x0, x1, x2, x3]) == [[x0, x1, x2, x3], [x1, x0, x2, x3], [x2, x0, x1, x3], [x0, x2, x1, x3], [x1, x2, x0, x3], [x2, x1, x0, x3], [x3, x1, x0, x2], [x1, x3, x0, x2], [x0, x3, x1, x2], [x3, x0, x1, x2], [x1, x0, x3, x2], [x0, x1, x3, x2], [x0, x2, x3, x1], [x2, x0, x3, x1], [x3, x0, x2, x1], [x0, x3, x2, x1], [x2, x3, x0, x1], [x3, x2, x0, x1], [x3, x2, x1, x0], [x2, x3, x1, x0], [x1, x3, x2, x0], [x3, x1, x2, x0], [x2, x1, x3, x0], [x1, x2, x3, x0]]
  {
    FourBlock0(x0, x1, x2, x3);
    FourBlock1(x0, x1, x2, x3);
    FourBlock2(x0, x1, x2, x3);
    FourBlock3(x0, x1, x2, x3);
    assert Zeros(4) == [0, 0, 0, 0];
  }

  /** Four different elements give 24 different orders: within each block
      of six the first three places differ, and the blocks end in different
      elements. */
  lemma FourDistinct<T>(x0: T, x1: T, x2: T, x3: T)
    requires x0 != x1 && x0 != x2 && x0 != x3 && x1 != x2 && x1 != x3 && x2 != x3
    ensures Distinct(HeapOrder([x0, x1, x2, x3]))
  {
    HeapOrderOfFour(x0, x1, x2, x3);
    var b0 := [[x0, x1, x2, x3], [x1, x0, x2, x3], [x2, x0, x1, x3], [x0, x2, x1, x3], [x1, x2, x0, x3], [x2, x1, x0, x3]];
    var b1 := [[x3, x1, x0, x2], [x1, x3, x0, x2], [x0, x3, x1, x2], [x3, x0, x1, x2], [x1, x0, x3, x2], [x0, x1, x3, x2]];
    var b2 := [[x0, x2, x3, x1], [x2, x0, x3, x1], [x3, x0, x2, x1], [x0, x3, x2, x1], [x2, x3, x0, x1], [x3, x2, x0, x1]];
    var b3 := [[x3, x2, x1, x0], [x2, x3, x1, x0], [x1, x3, x2, x0], [x3, x1, x2, x0], [x2, x1, x3, x0], [x1, x2, x3, x0]];
    assert HeapOrder([x0, x1, x2, x3]) == b0 + (b1 + (b2 + b3));
    BlockDistinct(b0, x0, x1, x2, x3);
    BlockDistinct(b1, x3, x1, x0, x2);
    BlockDistinct(b2, x0, x2, x3, x1);
    BlockDistinct(b3, x3, x2, x1, x0);
    JoinDistinct(b2, b3, x1);
    JoinDistinct(b1, b2 + b3, x2);
    JoinDistinct(b0, b1 + (b2 + b3), x3);
  }

  /** Every order in s has four places and ends in x. */
  ghost predicate Ending<T>(s: seq<seq<T>>, x: T) {
    forall k :: 0 <= k < |s| ==> |s[k]| == 4 && s[k][3] == x
  }

  /** Every order in s has four places and does not end in x. */
  ghost predicate Avoiding<T>(s: seq<seq<T>>, x: T) {
    forall k :: 0 <= k < |s| ==> |s[k]| == 4 && s[k][3] != x
  }

  /** The six orders of y0, y1, y2 with y3 appended are different and end in y3. */
  lemma BlockDistinct<T>(b: seq<seq<T>>, y0: T, y1: T, y2: T, y3: T)
    requires y0 != y1 && y0 != y2 && y1 != y2
    requires b == [[y0, y1, y2, y3], [y1, y0, y2, y3], [y2, y0, y1, y3], [y0, y2, y1, y3], [y1, y2, y0, y3], [y2, y1, y0, y3]]
    ensures Distinct(b) && Ending(b, y3)
  {
  }

  /** Joining orders that end in x to different orders that do not gives
      different orders. */
  lemma JoinDistinct<T>(s: seq<seq<T>>, t: seq<seq<T>>, x: T)
    requires Distinct(s) && Distinct(t) && Ending(s, x) && Avoiding(t, x)
    ensures Distinct(s + t)
  {
    forall i, j | 0 <= i < j < |s + t| ensures (s + t)[i] != (s + t)[j] {
      if i < |s| <= j {
        assert (s + t)[i][3] == x && (s + t)[j] == t[j - |s|];
      }
    }
  }

  /** Three different elements give six different orders. */
  lemma ThreeDistinct<T>(x0: T, x1: T, x2: T)
    requires x0 != x1 && x0 != x2 && x1 != x2
    ensures Distinct(HeapOrder([x0, x1, x2]))
  {
    HeapOrderOfThree(x0, x1, x2);
  }

  /** The generator run on the names the tests use: `permutations([])`,
      `['A']`, `['A','B']`, `['A','B','C']` and `['A','B','C','D']`. */
  method PermutationsOfLetters() returns (none: seq<seq<string>>, one: seq<seq<string>>, two: seq<seq<string>>,
                                         three: seq<seq<string>>, four: seq<seq<string>>)
    ensures none == [[]] && one == [["A"]] && two == [["A", "B"], ["B", "A"]]
    ensures three == [["A", "B", "C"], ["B", "A", "C"], ["C", "A", "B"], ["A", "C", "B"], ["B", "C", "A"], ["C", "B", "A"]]
    ensures four == [["A", "B", "C", "D"], ["B", "A", "C", "D"], ["C", "A", "B", "D"], ["A", "C", "B", "D"], ["B", "C", "A", "D"], ["C", "B", "A", "D"],
                     ["D", "B", "A", "C"], ["B", "D", "A", "C"], ["A", "D", "B", "C"], ["D", "A", "B", "C"], ["B", "A", "D", "C"], ["A", "B", "D", "C"],
                     ["A", "C", "D", "B"], ["C", "A", "D", "B"], ["D", "A", "C", "B"], ["A", "D", "C", "B"], ["C", "D", "A", "B"], ["D", "C", "A", "B"],
                     ["D", "C", "B", "A"], ["C", "D", "B", "A"], ["B", "D", "C", "A"], ["D", "B", "C", "A"], ["C", "B", "D", "A"], ["B", "C", "D", "A"]]
  {
    none := Permutations([]);
    HeapOrderOfNone<string>();
    one := Permutations(["A"]);
    HeapOrderOfOne("A");
    two := Permutations(["A", "B"]);
    HeapOrderOfTwo("A", "B");
    three := Permutations(["A", "B", "C"]);
    HeapOrderOfThree("A", "B", "C");
    four := Permutations(["A", "B", "C", "D"]);
    HeapOrderOfFour("A", "B", "C", "D");
  }
}
