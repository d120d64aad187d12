/** Worked values of the comparison bound, the group sizes and the group
    reordering of merge-insertion sort. */
module CountsCases {
  import opened Common
  import opened MergeInsertionCounts

  /** The closed form at n, given the exponent f of the power of two p
      with p <= 6n < 2p; v is the value the closed form takes there. */
  lemma MaxComparisonsAt(n: nat, f: nat, p: nat, v: int)
    requires n >= 1 && Pow2(f) == p && p <= 6 * n < 2 * p && v == n * (f - 2) - p / 3 + f / 2
    ensures MaxComparisons(n) == Ok(Value(v))
  {
    assert Pow2(f + 1) == 2 * p;
    FloorLog2Unique(6 * n, f);
    ClosedFormWith(n);
  }

  // The first 56 values of OEIS A001768, four at a time.

  lemma Table1To4()
    ensures MaxComparisons(1) == Ok(Value(0))
    ensures MaxComparisons(2) == Ok(Value(1))
    ensures MaxComparisons(3) == Ok(Value(3))
    ensures MaxComparisons(4) == Ok(Value(5))
  {
    MaxComparisonsAt(1, 2, 4, 0);
    MaxComparisonsAt(2, 3, 8, 1);
    MaxComparisonsAt(3, 4, 16, 3);
    MaxComparisonsAt(4, 4, 16, 5);
  }

  lemma Table5To8()
    ensures MaxComparisons(5) == Ok(Value(7))
    ensures MaxComparisons(6) == Ok(Value(10))
    ensures MaxComparisons(7) == Ok(Value(13))
    ensures MaxComparisons(8) == Ok(Value(16))
  {
    MaxComparisonsAt(5, 4, 16, 7);
    MaxComparisonsAt(6, 5, 32, 10);
    MaxComparisonsAt(7, 5, 32, 13);
    MaxComparisonsAt(8, 5, 32, 16);
  }

  lemma Table9To12()
    ensures MaxComparisons(9) == Ok(Value(19))
    ensures MaxComparisons(10) == Ok(Value(22))
    ensures MaxComparisons(11) == Ok(Value(26))
    ensures MaxComparisons(12) == Ok(Value(30))
  {
    MaxComparisonsAt(9, 5, 32, 19);
    MaxComparisonsAt(10, 5, 32, 22);
    MaxComparisonsAt(11, 6, 64, 26);
    MaxComparisonsAt(12, 6, 64, 30);
  }

  lemma Table13To16()
    ensures MaxComparisons(13) == Ok(Value(34))
    ensures MaxComparisons(14) == Ok(Value(38))
    ensures MaxComparisons(15) == Ok(Value(42))
    ensures MaxComparisons(16) == Ok(Value(46))
  {
    MaxComparisonsAt(13, 6, 64, 34);
    MaxComparisonsAt(14, 6, 64, 38);
    MaxComparisonsAt(15, 6, 64, 42);
    MaxComparisonsAt(16, 6, 64, 46);
  }

  lemma Table17To20()
    ensures MaxComparisons(17) == Ok(Value(50))
    ensures MaxComparisons(18) == Ok(Value(54))
    ensures MaxComparisons(19) == Ok(Value(58))
    ensures MaxComparisons(20) == Ok(Value(62))
  {
    MaxComparisonsAt(17, 6, 64, 50);
    MaxComparisonsAt(18, 6, 64, 54);
    MaxComparisonsAt(19, 6, 64, 58);
    MaxComparisonsAt(20, 6, 64, 62);
  }

  lemma Table21To24()
    ensures MaxComparisons(21) == Ok(Value(66))
    ensures MaxComparisons(22) == Ok(Value(71))
    ensures MaxComparisons(23) == Ok(Value(76))
    ensures MaxComparisons(24) == Ok(Value(81))
  {
    MaxComparisonsAt(21, 6, 64, 66);
    MaxComparisonsAt(22, 7, 128, 71);
    MaxComparisonsAt(23, 7, 128, 76);
    MaxComparisonsAt(24, 7, 128, 81);
  }

  lemma Table25To28()
    ensures MaxComparisons(25) == Ok(Value(86))
    ensures MaxComparisons(26) == Ok(Value(91))
    ensures MaxComparisons(27) == Ok(Value(96))
    ensures MaxComparisons(28) == Ok(Value(101))
  {
    MaxComparisonsAt(25, 7, 128, 86);
    MaxComparisonsAt(26, 7, 128, 91);
    MaxComparisonsAt(27, 7, 128, 96);
    MaxComparisonsAt(28, 7, 128, 101);
  }

  lemma Table29To32()
    ensures MaxComparisons(29) == Ok(Value(106))
    ensures MaxComparisons(30) == Ok(Value(111))
    ensures MaxComparisons(31) == Ok(Value(116))
    ensures MaxComparisons(32) == Ok(Value(121))
  {
    MaxComparisonsAt(29, 7, 128, 106);
    MaxComparisonsAt(30, 7, 128, 111);
    MaxComparisonsAt(31, 7, 128, 116);
    MaxComparisonsAt(32, 7, 128, 121);
  }

  lemma Table33To36()
    ensures MaxComparisons(33) == Ok(Value(126))
    ensures MaxComparisons(34) == Ok(Value(131))
    ensures MaxComparisons(35) == Ok(Value(136))
    ensures MaxComparisons(36) == Ok(Value(141))
  {
    MaxComparisonsAt(33, 7, 128, 126);
    MaxComparisonsAt(34, 7, 128, 131);
    MaxComparisonsAt(35, 7, 128, 136);
    MaxComparisonsAt(36, 7, 128, 141);
  }

  lemma Table37To40()
    ensures MaxComparisons(37) == Ok(Value(146))
    ensures MaxComparisons(38) == Ok(Value(151))
    ensures MaxComparisons(39) == Ok(Value(156))
    ensures MaxComparisons(40) == Ok(Value(161))
  {
    MaxComparisonsAt(37, 7, 128, 146);
    MaxComparisonsAt(38, 7, 128, 151);
    MaxComparisonsAt(39, 7, 128, 156);
    MaxComparisonsAt(40, 7, 128, 161);
  }

  lemma Table41To44()
    ensures MaxComparisons(41) == Ok(Value(166))
    ensures MaxComparisons(42) == Ok(Value(171))
    ensures MaxComparisons(43) == Ok(Value(177))
    ensures MaxComparisons(44) == Ok(Value(183))
  {
    MaxComparisonsAt(41, 7, 128, 166);
    MaxComparisonsAt(42, 7, 128, 171);
    MaxComparisonsAt(43, 8, 256, 177);
    MaxComparisonsAt(44, 8, 256, 183);
  }

  lemma Table45To48()
    ensures MaxComparisons(45) == Ok(Value(189))
    ensures MaxComparisons(46) == Ok(Value(195))
    ensures MaxComparisons(47) == Ok(Value(201))
    ensures MaxComparisons(48) == Ok(Value(207))
  {
    MaxComparisonsAt(45, 8, 256, 189);
    MaxComparisonsAt(46, 8, 256, 195);
    MaxComparisonsAt(47, 8, 256, 201);
    MaxComparisonsAt(48, 8, 256, 207);
  }

  lemma Table49To52()
    ensures MaxComparisons(49) == Ok(Value(213))
    ensures MaxComparisons(50) == Ok(Value(219))
    ensures MaxComparisons(51) == Ok(Value(225))
    ensures MaxComparisons(52) == Ok(Value(231))
  {
    MaxComparisonsAt(49, 8, 256, 213);
    MaxComparisonsAt(50, 8, 256, 219);
    MaxComparisonsAt(51, 8, 256, 225);
    MaxComparisonsAt(52, 8, 256, 231);
  }

  lemma Table53To56()
    ensures MaxComparisons(53) == Ok(Value(237))
    ensures MaxComparisons(54) == Ok(Value(243))
    ensures MaxComparisons(55) == Ok(Value(249))
    ensures MaxComparisons(56) == Ok(Value(255))
  {
    MaxComparisonsAt(53, 8, 256, 237);
    MaxComparisonsAt(54, 8, 256, 243);
    MaxComparisonsAt(55, 8, 256, 249);
    MaxComparisonsAt(56, 8, 256, 255);
  }

  /** The first generated group sizes: 2, 2, 6, 10, 22, 42, 86, 170. */
  lemma GroupSizesStart()
    ensures Yielded(1) == 2 && Yielded(2) == 2 && Yielded(3) == 6 && Yielded(4) == 10
    ensures Yielded(5) == 22 && Yielded(6) == 42 && Yielded(7) == 86 && Yielded(8) == 170
  {
  }

  /** Ten indices are cut into blocks of 2, 2 and 6, each reversed; the
      next block (of 10) comes out empty and ends the loop. */
  method GroupsOfTen() returns (rv: seq<int>)
    ensures rv == [1, 0, 3, 2, 9, 8, 7, 6, 5, 4]
  {
    rv := MakeMergeInsertionGroups([0, 1, 2, 3, 4, 5, 6, 7, 8, 9]);
    TenInGroups(0, 1, 2, 3, 4, 5, 6, 7, 8, 9);
  }

  lemma TenInGroups(x0: int, x1: int, x2: int, x3: int, x4: int, x5: int, x6: int, x7: int, x8: int, x9: int)
    ensures ReversedGroups([x0, x1, x2, x3, x4, x5, x6, x7, x8, x9], 1) == [x1, x0, x3, x2, x9, x8, x7, x6, x5, x4]
  {
    GroupSizesStart();
    FullGroup([x0, x1, x2, x3, x4, x5, x6, x7, x8, x9], 1, [x0, x1], [x2, x3, x4, x5, x6, x7, x8, x9]);
    FullGroup([x2, x3, x4, x5, x6, x7, x8, x9], 2, [x2, x3], [x4, x5, x6, x7, x8, x9]);
    FullGroup([x4, x5, x6, x7, x8, x9], 3, [x4, x5, x6, x7, x8, x9], []);
    SmallReversals(x0, x1, x2, x3, x4, x5, x6, x7, x8, x9);
  }

  /** A full group of size a(k) at the front of s, and the rest. */
  lemma FullGroup(s: seq<int>, k: nat, front: seq<int>, rest: seq<int>)
    requires k >= 1 && s == front + rest && |front| == Yielded(k)
    ensures ReversedGroups(s, k) == Reverse(front) + ReversedGroups(rest, k + 1)
  {
    assert s[..|front|] == front && s[|front|..] == rest;
  }

  lemma SmallReversals(x0: int, x1: int, x2: int, x3: int, x4: int, x5: int, x6: int, x7: int, x8: int, x9: int)
    ensures Reverse([x0, x1]) == [x1, x0] && Reverse([x2, x3]) == [x3, x2]
    ensures Reverse([x4, x5, x6, x7, x8, x9]) == [x9, x8, x7, x6, x5, x4]
  {
    ReverseIndex([x0, x1]);
    ReverseIndex([x2, x3]);
    ReverseIndex([x4, x5, x6, x7, x8, x9]);
  }
}
