/** The numeric side of merge-insertion sort: exact integer logarithms,
    the worst-case comparison count, the group sizes of the insertion
    phase, and the reordering of pending items into reversed groups. */
module MergeInsertionCounts {
  import opened Common

  function Pow2(k: nat): (r: nat)
    ensures r >= 1
  {
    if k == 0 then 1 else 2 * Pow2(k - 1)
  }

  lemma {:induction false} Pow2Monotone(j: nat, k: nat)
    requires j <= k
    ensures Pow2(j) <= Pow2(k)
    decreases k
  {
    if j < k { Pow2Monotone(j, k - 1); }
  }

  /** Powers of two alternate between 1 and 2 modulo 3, so none is a multiple of 3. */
  lemma {:induction false} Pow2Mod3(k: nat)
    ensures Pow2(k) % 3 == if k % 2 == 0 then 1 else 2
  {
    if k > 0 {
      Pow2Mod3(k - 1);
      var q := Pow2(k - 1);
      var t, r := q / 3, q % 3;
      assert q == 3 * t + r;
      assert Pow2(k) == 3 * (2 * t) + 2 * r;
      if r == 1 {
        assert Pow2(k) == 3 * (2 * t) + 2;
      } else {
        assert Pow2(k) == 3 * (2 * t + 1) + 1;
      }
    }
  }

  /** floor(log2 x): the exponent of the largest power of two not above x. */
  function FloorLog2(x: nat): (r: nat)
    requires x >= 1
    ensures Pow2(r) <= x < Pow2(r + 1)
  {
    if x == 1 then 0 else 1 + FloorLog2(x / 2)
  }

  /** ceil(log2 x): the exponent of the smallest power of two not below x. */
  function CeilLog2(x: nat): (r: nat)
    requires x >= 1
    ensures r == 0 ==> x == 1
    ensures r > 0 ==> Pow2(r - 1) < x <= Pow2(r)
  {
    if x == 1 then 0 else FloorLog2(x - 1) + 1
  }

  /** The bracketing by powers of two determines floor(log2 x). */
  lemma FloorLog2Unique(x: nat, k: nat)
    requires x >= 1 && Pow2(k) <= x < Pow2(k + 1)
    ensures FloorLog2(x) == k
  {
    var r := FloorLog2(x);
    if r < k { Pow2Monotone(r + 1, k); }
    if r > k { Pow2Monotone(k + 1, r); }
  }

  /** The bracketing by powers of two determines ceil(log2 x). */
  lemma CeilLog2Unique(x: nat, k: nat)
    requires k > 0 && Pow2(k - 1) < x <= Pow2(k)
    ensures CeilLog2(x) == k
  {
    var r := CeilLog2(x);
    if r < k { Pow2Monotone(r, k - 1); }
    if r > k { Pow2Monotone(k, r - 1); }
  }

  /** Halving a search interval of s >= 1 entries saves exactly one step of
      ceil(log2(s + 1)). */
  lemma CeilLog2Halving(s: nat)
    requires s >= 1
    ensures CeilLog2(s / 2 + 1) + 1 == CeilLog2(s + 1)
  {
    var k := FloorLog2(s);
    assert Pow2(k) <= s < Pow2(k + 1);
    CeilLog2Unique(s + 1, k + 1);
    if k == 0 {
      assert s == 1;
    } else {
      assert Pow2(k - 1) <= s / 2 < Pow2(k);
      CeilLog2Unique(s / 2 + 1, k);
    }
  }

  /** The most probes a binary search over w entries makes: one probe,
      then at worst a search over floor(w / 2) entries. */
  function SearchDepth(w: nat): nat {
    if w == 0 then 0 else 1 + SearchDepth(w / 2)
  }

  lemma {:induction false} SearchDepthMonotone(a: nat, b: nat)
    requires a <= b
    ensures SearchDepth(a) <= SearchDepth(b)
    decreases b
  {
    if a > 0 {
      SearchDepthMonotone(a / 2, b / 2);
    }
  }

  /** The worst-case probe count is ceil(log2(w + 1)). */
  lemma {:induction false} SearchDepthIsCeilLog2(w: nat)
    ensures SearchDepth(w) == CeilLog2(w + 1)
    decreases w
  {
    if w > 0 {
      SearchDepthIsCeilLog2(w / 2);
      CeilLog2Halving(w);
    }
  }

  lemma CeilLog2Monotone(x: nat, y: nat)
    requires 1 <= x <= y
    ensures CeilLog2(x) <= CeilLog2(y)
  {
    var a, b := CeilLog2(x), CeilLog2(y);
    if a > b && b > 0 { Pow2Monotone(b, a - 1); }
  }

  /** The value `mergeInsertionMaxComparisons` returns: a number, or NaN. */
  datatype Number = Value(value: int) | NaN

  /** `mergeInsertionMaxComparisons(n)`: the closed form
        n ceil(log2(3n/4)) - floor(2^floor(log2(6n)) / 3) + floor(log2(6n) / 2)
      in exact integers. log2(3n/4) is log2(3n) - 2, and floor(x / 2) is
      floor(floor(x) / 2) for x >= 0. For n == 0 the first term is
      0 * -Infinity, which makes the whole value NaN. */
  function MaxComparisons(n: int): (r: Result<Number>)
    ensures r.Err? <==> n < 0
    ensures r.Err? ==> r.error == InvalidCount
    ensures r == Ok(NaN) <==> n == 0
  {
    if n < 0 then Err(InvalidCount)
    else if n == 0 then Ok(NaN)
    else Ok(Value(ClosedForm(n)))
  }

  function ClosedForm(n: nat): int
    requires n >= 1
  {
    n * (CeilLog2(3 * n) - 2) - Pow2(FloorLog2(6 * n)) / 3 + FloorLog2(6 * n) / 2
  }

  /** The commented-out alternative: the sum of ceil(log2(3i/4)) for i = 1 .. n. */
  function SumOfLogs(n: nat): int
  {
    if n == 0 then 0 else SumOfLogs(n - 1) + (CeilLog2(3 * n) - 2)
  }

  lemma Pow2Small(k: nat)
    ensures k <= 2 ==> Pow2(k) <= 4
  {
    if k == 2 { assert Pow2(2) == 2 * Pow2(1); }
  }

  /** 3n is never a power of two, so ceil(log2(3n)) is floor(log2(6n)). */
  lemma CeilOfTriple(n: nat)
    requires n >= 1
    ensures CeilLog2(3 * n) == FloorLog2(6 * n) >= 2
  {
    var k := FloorLog2(6 * n);
    assert Pow2(k) <= 6 * n < Pow2(k + 1);
    Pow2Small(k + 1);
    assert Pow2(k) == 2 * Pow2(k - 1);
    Pow2Mod3(k - 1);
    assert Pow2(k - 1) != 3 * n;
    CeilLog2Unique(3 * n, k);
  }

  /** An even number in (6n - 6, 6n] that is 1 or 2 modulo 3 is 6n - 2 or 6n - 4. */
  lemma NearMultipleOfSix(n: int, p: int, q: int, even: bool)
    requires 6 * (n - 1) < p <= 6 * n && p == 2 * q
    requires p % 3 == if even then 1 else 2
    ensures p == if even then 6 * n - 2 else 6 * n - 4
  {
    var m := n - 1;
    var t := q - 3 * m;
    assert p - 6 * m == 2 * t && 0 < t <= 3;
    if t == 1 {
      assert p == 3 * (2 * m) + 2;
    } else if t == 2 {
      assert p == 3 * (2 * m + 1) + 1;
    }
  }

  /** Exponents f and g bracketing 6n and 6(n - 1) are equal or one apart;
      when they differ, 2^f is 6n - 2 (f even) or 6n - 4 (f odd). */
  lemma ExponentStep(n: int, f: nat, g: nat)
    requires n >= 2
    requires Pow2(g) <= 6 * (n - 1) < Pow2(g + 1)
    requires Pow2(f) <= 6 * n < Pow2(f + 1)
    ensures f == g || (f == g + 1 && Pow2(f) == (if f % 2 == 0 then 6 * n - 2 else 6 * n - 4))
  {
    if f < g { Pow2Monotone(f + 1, g); }
    assert Pow2(g + 2) == 2 * Pow2(g + 1);
    if f > g + 1 { Pow2Monotone(g + 2, f); }
    if f == g + 1 {
      Pow2Mod3(f);
      assert Pow2(f) == 2 * Pow2(g);
      NearMultipleOfSix(n, Pow2(f), Pow2(g), f % 2 == 0);
    }
  }

  /** The closed form with f standing for floor(log2(6n)). */
  function ClosedWith(n: int, f: nat): int
  {
    n * (f - 2) - Pow2(f) / 3 + f / 2
  }

  lemma ClosedFormWith(n: nat)
    requires n >= 1
    ensures ClosedForm(n) == ClosedWith(n, FloorLog2(6 * n))
    ensures CeilLog2(3 * n) == FloorLog2(6 * n) >= 2
  {
    CeilOfTriple(n);
  }

  /** The closed form for n when floor(log2(6n)) did not change since n - 1. */
  lemma SameExponentStep(n: int, f: nat)
    ensures ClosedWith(n, f) == ClosedWith(n - 1, f) + (f - 2)
  {
    assert n * (f - 2) == (n - 1) * (f - 2) + (f - 2);
  }

  /** The closed form for n when floor(log2(6n)) grew by one to f. */
  lemma NextExponentStep(n: int, f: nat)
    requires f >= 1
    requires Pow2(f) == if f % 2 == 0 then 6 * n - 2 else 6 * n - 4
    ensures ClosedWith(n, f) == ClosedWith(n - 1, f - 1) + (f - 2)
  {
    var p, q := Pow2(f), Pow2(f - 1);
    assert p == 2 * q;
    assert n * (f - 2) == (n - 1) * (f - 3) + (n - 1) + (f - 2);
    if f % 2 == 0 {
      assert p / 3 == 2 * n - 1 && q / 3 == n - 1 && f / 2 == (f - 1) / 2 + 1;
    } else {
      assert p / 3 == 2 * n - 2 && q / 3 == n - 1 && f / 2 == (f - 1) / 2;
    }
  }

  lemma ClosedFormOne()
    ensures ClosedForm(1) == SumOfLogs(1)
  {
    ClosedFormWith(1);
    FloorLog2Unique(6, 2);
    assert Pow2(2) == 4;
    assert ClosedWith(1, 2) == 0;
    assert SumOfLogs(1) == CeilLog2(3) - 2;
  }

  /** One step of the induction: the closed form grows by ceil(log2(3n/4)). */
  lemma ClosedFormStep(n: nat)
    requires n >= 2
    ensures ClosedForm(n) == ClosedForm(n - 1) + (CeilLog2(3 * n) - 2)
  {
    ClosedFormWith(n);
    ClosedFormWith(n - 1);
    var f, g := FloorLog2(6 * n), FloorLog2(6 * (n - 1));
    ExponentStep(n, f, g);
    if f == g {
      SameExponentStep(n, f);
    } else {
      NextExponentStep(n, f);
    }
  }

  /** The closed form agrees with the commented-out sum, as the comment next
      to them says. */
  lemma {:induction false} ClosedFormIsSum(n: nat)
    requires n >= 1
    ensures ClosedForm(n) == SumOfLogs(n)
  {
    if n == 1 {
      ClosedFormOne();
    } else {
      ClosedFormIsSum(n - 1);
      SumStep(n);
    }
  }

  /** Where the closed form and the sum agree at n - 1, they agree at n. */
  lemma SumStep(n: nat)
    requires n >= 2 && ClosedForm(n - 1) == SumOfLogs(n - 1)
    ensures ClosedForm(n) == SumOfLogs(n)
  {
    ClosedFormStep(n);
    SameSteps(ClosedForm(n), ClosedForm(n - 1), SumOfLogs(n), SumOfLogs(n - 1), CeilLog2(3 * n) - 2);
  }

  /** Two sequences that agree at one point and take the same next step
      agree at the next point. */
  lemma SameSteps(a: int, b: int, s: int, t: int, d: int)
    requires a == b + d && b == t && s == t + d
    ensures a == s
  {
  }

  /** For every n >= 1 the returned number is the sum of ceil(log2(3i/4)). */
  lemma MaxComparisonsIsSum(n: nat)
    requires n >= 1
    ensures MaxComparisons(n) == Ok(Value(SumOfLogs(n)))
  {
    ClosedFormIsSum(n);
  }

  /** The n-th value yielded by `mergeInsertionGroupSizes` (n >= 1), with
      a(0) = 0 and a(n) = 2^n - a(n - 1). */
  function GroupSize(n: nat): (r: nat)
    ensures r <= Pow2(n)
  {
    if n == 0 then 0 else Pow2(n) - GroupSize(n - 1)
  }

  /** 3 a(n) = 2^(n+1) - 2 (-1)^n: the Jacobsthal-like closed form of the
      group sizes 2, 2, 6, 10, 22, ... */
  lemma {:induction false} GroupSizeClosedForm(n: nat)
    ensures 3 * GroupSize(n) == 2 * Pow2(n) - (if n % 2 == 0 then 2 else -2)
  {
    if n > 0 { GroupSizeClosedForm(n - 1); }
  }

  /** Every yielded group size is at least 2, and two adjacent ones sum to a power of two. */
  lemma GroupSizeBounds(n: nat)
    requires n >= 1
    ensures 2 <= GroupSize(n) <= Pow2(n)
    ensures GroupSize(n) + GroupSize(n - 1) == Pow2(n)
  {
    GroupSizeClosedForm(n);
    if n >= 2 { Pow2Monotone(2, n); }
  }

  /** The k-th value (k >= 1) that `mergeInsertionGroupSizes` yields. */
  function Yielded(k: nat): (r: nat)
    requires k >= 1
    ensures r >= 2
  {
    GroupSizeBounds(k);
    GroupSize(k)
  }

  /** The slice reversed, as `curGroup.reverse()` leaves it. */
  function Reverse<T>(s: seq<T>): (r: seq<T>)
    ensures |r| == |s|
  {
    if s == [] then [] else Reverse(s[1..]) + [s[0]]
  }

  /** The k-th entry of the reversal is the k-th from the end. */
  lemma {:induction false} ReverseIndex<T>(s: seq<T>)
    ensures forall k :: 0 <= k < |s| ==> Reverse(s)[k] == s[|s| - 1 - k]
  {
    if s != [] {
      ReverseIndex(s[1..]);
    }
  }

  lemma ReverseReverse<T>(s: seq<T>)
    ensures Reverse(Reverse(s)) == s
  {
    ReverseIndex(s);
    ReverseIndex(Reverse(s));
  }

  lemma {:induction false} ReversePermutation<T>(s: seq<T>)
    ensures multiset(Reverse(s)) == multiset(s)
  {
    if s != [] {
      ReversePermutation(s[1..]);
      assert s == [s[0]] + s[1..];
    }
  }

  /** `items` cut into consecutive groups of sizes a(k), a(k + 1), ..., each
      group reversed; the first group shorter than its size (possibly empty)
      is the last. */
  function ReversedGroups(s: seq<int>, k: nat): (r: seq<int>)
    requires k >= 1
    ensures |r| == |s|
    decreases |s|
  {
    var size := Yielded(k);
    if |s| < size then Reverse(s) else Reverse(s[..size]) + ReversedGroups(s[size..], k + 1)
  }

  /** The group of size a(k) taken from the slice s[i..] at the front of
      `items`: either the whole rest (too short), or a full group followed
      by the groups of the remainder. */
  lemma ReversedGroupsAt(items: seq<int>, i: nat, k: nat)
    requires k >= 1 && i <= |items|
    ensures i + Yielded(k) > |items| ==> ReversedGroups(items[i..], k) == Reverse(items[i..])
    ensures i + Yielded(k) <= |items| ==>
              ReversedGroups(items[i..], k) ==
                Reverse(items[i..i + Yielded(k)]) + ReversedGroups(items[i + Yielded(k)..], k + 1)
  {
    var size := Yielded(k);
    if i + size <= |items| {
      assert items[i..][..size] == items[i..i + size];
      assert items[i..][size..] == items[i + size..];
    }
  }

  /** Reordering keeps the items. */
  lemma {:induction false} ReversedGroupsPermutation(s: seq<int>, k: nat)
    requires k >= 1
    ensures multiset(ReversedGroups(s, k)) == multiset(s)
    decreases |s|
  {
    ReversedGroupsAt(s, 0, k);
    assert s[0..] == s;
    if |s| < Yielded(k) {
      ReversePermutation(s);
    } else {
      ReversedGroupsPermutation(s[Yielded(k)..], k + 1);
      PermutationOfLong(s, k);
    }
  }

  /** The inductive step of the permutation, for an input holding a full first group. */
  lemma PermutationOfLong(s: seq<int>, k: nat)
    requires k >= 1 && |s| >= Yielded(k)
    requires multiset(ReversedGroups(s[Yielded(k)..], k + 1)) == multiset(s[Yielded(k)..])
    ensures multiset(ReversedGroups(s, k)) == multiset(s)
  {
    var size := Yielded(k);
    ReversedGroupsAt(s, 0, k);
    assert s[0..] == s;
    var front, rest := Reverse(s[..size]), ReversedGroups(s[size..], k + 1);
    assert ReversedGroups(s, k) == front + rest;
    ReversePermutation(s[..size]);
    assert s == s[..size] + s[size..];
  }

  /** Reordering twice gives back the input: the groups fall at the same
      places, and each is reversed twice. */
  lemma {:induction false} ReversedGroupsInvolution(s: seq<int>, k: nat)
    requires k >= 1
    ensures ReversedGroups(ReversedGroups(s, k), k) == s
    decreases |s|
  {
    ReversedGroupsAt(s, 0, k);
    assert s[0..] == s;
    if |s| < Yielded(k) {
      ReverseReverse(s);
    } else {
      ReversedGroupsInvolution(s[Yielded(k)..], k + 1);
      InvolutionOfLong(s, k);
    }
  }

  /** The inductive step of the involution, for an input holding a full first group. */
  lemma InvolutionOfLong(s: seq<int>, k: nat)
    requires k >= 1 && |s| >= Yielded(k)
    requires ReversedGroups(ReversedGroups(s[Yielded(k)..], k + 1), k + 1) == s[Yielded(k)..]
    ensures ReversedGroups(ReversedGroups(s, k), k) == s
  {
    var size := Yielded(k);
    var r := ReversedGroups(s, k);
    ReversedGroupsAt(s, 0, k);
    ReversedGroupsAt(r, 0, k);
    assert s[0..] == s && r[0..] == r;
    var front, rest := Reverse(s[..size]), ReversedGroups(s[size..], k + 1);
    assert r == front + rest;
    assert r[..size] == front && r[size..] == rest;
    ReverseReverse(s[..size]);
    assert s == s[..size] + s[size..];
  }

  /** The state between two rounds of `makeMergeInsertionGroups`: what is
      collected so far, followed by the groups of the rest (starting at
      offset i with the k-th size), is the whole reordering. */
  predicate Pending(items: seq<int>, i: nat, k: nat, rv: seq<int>)
    requires k >= 1 && i <= |items|
  {
    rv + ReversedGroups(items[i..], k) == ReversedGroups(items, 1)
  }

  lemma PendingAtStart(items: seq<int>)
    ensures Pending(items, 0, 1, [])
  {
    assert items[0..] == items;
    assert [] + ReversedGroups(items, 1) == ReversedGroups(items, 1);
  }

  /** One round at offset i with the k-th size: the reversed slice it
      appends either completes the reordering (the slice came out short) or
      leaves the groups of the rest to do. */
  lemma GroupRound(items: seq<int>, i: nat, k: nat, rv: seq<int>)
    requires k >= 1 && i <= |items| && Pending(items, i, k, rv)
    ensures var size := Yielded(k);
      var end := if i + size <= |items| then i + size else |items|;
      var group := Reverse(items[i..end]);
      && (|group| < size ==> rv + group == ReversedGroups(items, 1))
      && (|group| >= size ==> i + size <= |items| && Pending(items, i + size, k + 1, rv + group))
  {
    ReversedGroupsAt(items, i, k);
    var size := Yielded(k);
    if i + size <= |items| {
      var a, b := Reverse(items[i..i + size]), ReversedGroups(items[i + size..], k + 1);
      assert (rv + a) + b == rv + (a + b);
    } else {
      assert items[i..|items|] == items[i..];
    }
  }

  /** `makeMergeInsertionGroups`: takes slices of the generated sizes until
      one comes out short, reversing each and appending it. */
  method MakeMergeInsertionGroups(items: seq<int>) returns (rv: seq<int>)
    ensures rv == ReversedGroups(items, 1)
  {
    var k := 1;
    var i := 0;
    rv := [];
    PendingAtStart(items);
    while true
      invariant k >= 1 && 0 <= i <= |items|
      invariant Pending(items, i, k, rv)
      decreases |items| - i
    {
      GroupRound(items, i, k, rv);
      var curGroupSize := Yielded(k);
      var end := if i + curGroupSize <= |items| then i + curGroupSize else |items|;
      var curGroup := Reverse(items[i..end]);
      rv := rv + curGroup;
      k := k + 1;
      if |curGroup| < curGroupSize {
        break;
      }
      i := i + curGroupSize;
    }
  }
}
