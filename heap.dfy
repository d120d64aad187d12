/** `permutations`: the non-recursive form of Heap's algorithm, which lists
    every order of an array by swapping two positions between outputs. */
module Heap {
  import opened Common

  /** `assert(condition, msg)`: fails with `msg` exactly when the condition
      does not hold (a missing message is the empty one). */
  function Assert(condition: bool, msg: string): (r: Result<()>)
    ensures r.Err? <==> !condition
    ensures r.Err? ==> r.error == Thrown(msg)
  {
    if condition then Ok(()) else Err(Thrown(msg))
  }

  /** `paranoia` is the same check under another name. */
  function Paranoia(condition: bool, msg: string): (r: Result<()>)
    ensures r == Assert(condition, msg)
  {
    if !condition then Err(Thrown(msg)) else Ok(())
  }

  /** The array with positions p and q exchanged. */
  function Swap<T>(a: seq<T>, p: nat, q: nat): (r: seq<T>)
    requires p < |a| && q < |a|
    ensures |r| == |a|
  {
    a[p := a[q]][q := a[p]]
  }

  /** A swap exchanges the two positions, keeps every other one, and so
      keeps the elements. */
  lemma SwapPermutes<T>(a: seq<T>, p: nat, q: nat)
    requires p < |a| && q < |a|
    ensures Swap(a, p, q)[p] == a[q] && Swap(a, p, q)[q] == a[p]
    ensures forall k :: 0 <= k < |a| && k != p && k != q ==> Swap(a, p, q)[k] == a[k]
    ensures multiset(Swap(a, p, q)) == multiset(a)
  {
  }

  /** What the loop keeps of the counters: c[k] never exceeds k, the ones
      below the current level i are zero, and i stays within the array
      (or is 1 when the array is empty). */
  predicate Counters(c: seq<int>, i: nat) {
    && 1 <= i && (i <= |c| || i == 1)
    && (forall k :: 0 <= k < |c| ==> 0 <= c[k] <= k)
    && (forall k :: 1 <= k < i && k < |c| ==> c[k] == 0)
  }

  /** The counters from level i up, read as a mixed-radix number with
      place values k!. */
  function PlaceSum(c: seq<int>, i: nat): int
    decreases |c| - i
  {
    if i >= |c| then 0 else c[i] * Factorial(i) + PlaceSum(c, i + 1)
  }

  /** How many arrays the loop has yielded after the first one, in the
      state (c, i). */
  function Emitted(c: seq<int>, i: nat): int {
    PlaceSum(c, i) + Factorial(i) - 1
  }

  /** The arrays the loop yields from the state (a, c, i) on, in order. */
  function Run<T>(a: seq<T>, c: seq<int>, i: nat): (r: seq<seq<T>>)
    requires |a| == |c| && Counters(c, i)
    ensures forall k :: 0 <= k < |r| ==> |r[k]| == |a|
    decreases Factorial(|a|) - 1 - Emitted(c, i), |a| - i
  {
    if i >= |a| then []
    else if c[i] < i then
      var b := Swap(a, if i % 2 == 0 then 0 else c[i], i);
      YieldStep(c, i);
      [b] + Run(b, c[i := c[i] + 1], 1)
    else
      ResetStep(c, i);
      Run(a, c[i := 0], i + 1)
  }

  /** `Array.from(permutations(array))`: a copy of the input, then every
      array the loop yields. */
  function HeapOrder<T>(s: seq<T>): (r: seq<seq<T>>)
    ensures |r| >= 1 && r[0] == s
    ensures forall k :: 0 <= k < |r| ==> |r[k]| == |s|
  {
    ZerosCounters(|s|);
    [s] + Run(s, Zeros(|s|), 1)
  }

  function Zeros(n: nat): (r: seq<int>)
    ensures |r| == n && forall k :: 0 <= k < n ==> r[k] == 0
  {
    seq(n, _ => 0)
  }

  // ----- the counting argument -----

  /** Counters below the starting level do not enter the sum. */
  lemma {:induction false} PlaceSumFrom(c: seq<int>, d: seq<int>, i: nat)
    requires |c| == |d| && forall k :: i <= k < |c| ==> c[k] == d[k]
    ensures PlaceSum(c, i) == PlaceSum(d, i)
    decreases |c| - i
  {
    if i < |c| { PlaceSumFrom(c, d, i + 1); }
  }

  /** Zero counters from level i to level j add nothing. */
  lemma {:induction false} PlaceSumZeros(c: seq<int>, i: nat, j: nat)
    requires i <= j && forall k :: i <= k < j && k < |c| ==> c[k] == 0
    ensures PlaceSum(c, i) == PlaceSum(c, j)
    decreases j - i
  {
    if i < j && i < |c| {
      PlaceSumZeros(c, i + 1, j);
    }
  }

  /** With c[k] <= k, the counters from level i are worth at most n! - i!. */
  lemma {:induction false} PlaceSumBound(c: seq<int>, i: nat)
    requires i <= |c| && forall k :: i <= k < |c| ==> 0 <= c[k] <= k
    ensures 0 <= PlaceSum(c, i) <= Factorial(|c|) - Factorial(i)
    decreases |c| - i
  {
    if i < |c| {
      PlaceSumBound(c, i + 1);
      var f := Factorial(i);
      TimesFactorial(c[i], i, f);
      NextFactorial(i, f);
      BoundStep(c[i] * f, i * f, PlaceSum(c, i + 1), f, Factorial(i + 1), Factorial(|c|));
    }
  }

  lemma TimesFactorial(x: int, i: nat, f: nat)
    requires 0 <= x <= i
    ensures 0 <= x * f <= i * f
  {
  }

  lemma NextFactorial(i: nat, f: nat)
    requires f == Factorial(i)
    ensures Factorial(i + 1) == i * f + f
  {
  }

  lemma BoundStep(here: int, most: int, rest: int, fi: int, fnext: int, fall: int)
    requires 0 <= here <= most && 0 <= rest <= fall - fnext && fnext == most + fi
    ensures 0 <= here + rest <= fall - fi
  {
  }

  /** A yield adds one to the count and stays within n! - 1. */
  lemma YieldStep(c: seq<int>, i: nat)
    requires Counters(c, i) && i < |c| && c[i] < i
    ensures Counters(c[i := c[i] + 1], 1)
    ensures Emitted(c[i := c[i] + 1], 1) == Emitted(c, i) + 1
    ensures Emitted(c[i := c[i] + 1], 1) <= Factorial(|c|) - 1
  {
    var d := c[i := c[i] + 1];
    PlaceSumZeros(d, 1, i);
    PlaceSumFrom(c, d, i + 1);
    var f := Factorial(i);
    OneMore(c[i], f);
    assert PlaceSum(d, i) == PlaceSum(c, i) + f;
    PlaceSumBound(d, 1);
  }

  lemma OneMore(x: int, f: int)
    ensures (x + 1) * f == x * f + f
  {
  }

  /** Moving up past a full level leaves the count unchanged. */
  lemma ResetStep(c: seq<int>, i: nat)
    requires Counters(c, i) && i < |c| && c[i] >= i
    ensures Counters(c[i := 0], i + 1)
    ensures Emitted(c[i := 0], i + 1) == Emitted(c, i)
    ensures Emitted(c, i) <= Factorial(|c|) - 1
  {
    PlaceSumFrom(c, c[i := 0], i + 1);
    var f := Factorial(i);
    NextFactorial(i, f);
    assert PlaceSum(c, i) == i * f + PlaceSum(c, i + 1);
    PlaceSumBound(c, i);
  }

  lemma ZerosCounters(n: nat)
    ensures Counters(Zeros(n), 1) && Emitted(Zeros(n), 1) == 0
  {
    if n >= 1 { PlaceSumZeros(Zeros(n), 1, n); }
  }

  /** From any state the loop yields exactly the arrays still missing to n!. */
  lemma {:induction false} RunLength<T>(a: seq<T>, c: seq<int>, i: nat)
    requires |a| == |c| && Counters(c, i)
    ensures |Run(a, c, i)| == Factorial(|a|) - 1 - Emitted(c, i)
    decreases Factorial(|a|) - 1 - Emitted(c, i), |a| - i
  {
    if i >= |a| {
    } else if c[i] < i {
      YieldStep(c, i);
      RunLength(Swap(a, if i % 2 == 0 then 0 else c[i], i), c[i := c[i] + 1], 1);
    } else {
      ResetStep(c, i);
      RunLength(a, c[i := 0], i + 1);
    }
  }

  /** One pass of the loop body that swaps and yields b, leaving the
      counters d. */
  lemma RunYield<T>(a: seq<T>, c: seq<int>, i: nat, b: seq<T>, d: seq<int>)
    requires |a| == |c| && Counters(c, i) && i < |a| && c[i] < i
    requires b == Swap(a, if i % 2 == 0 then 0 else c[i], i) && d == c[i := c[i] + 1]
    ensures Counters(d, 1) && Run(a, c, i) == [b] + Run(b, d, 1)
  {
    YieldStep(c, i);
  }

  /** One pass of the loop body that resets a counter, leaving d, and
      moves up. */
  lemma RunReset<T>(a: seq<T>, c: seq<int>, i: nat, d: seq<int>)
    requires |a| == |c| && Counters(c, i) && i < |a| && c[i] >= i && d == c[i := 0]
    ensures Counters(d, i + 1) && Run(a, c, i) == Run(a, d, i + 1)
  {
    ResetStep(c, i);
  }

  /** Each of the arrays holds the same elements as a. */
  ghost predicate Rearrangements<T>(r: seq<seq<T>>, a: seq<T>) {
    forall k :: 0 <= k < |r| ==> multiset(r[k]) == multiset(a)
  }

  /** Every array the loop yields holds the same elements as the state's. */
  lemma {:induction false} RunPermutes<T>(a: seq<T>, c: seq<int>, i: nat)
    requires |a| == |c| && Counters(c, i)
    ensures Rearrangements(Run(a, c, i), a)
    decreases Factorial(|a|) - 1 - Emitted(c, i), |a| - i
  {
    if i < |a| {
      if c[i] < i {
        var b := Swap(a, if i % 2 == 0 then 0 else c[i], i);
        SwapPermutes(a, if i % 2 == 0 then 0 else c[i], i);
        YieldStep(c, i);
        RunYield(a, c, i, b, c[i := c[i] + 1]);
        var rest := Run(b, c[i := c[i] + 1], 1);
        RunPermutes(b, c[i := c[i] + 1], 1);
        forall k | 0 <= k < |[b] + rest| ensures multiset(([b] + rest)[k]) == multiset(a) {
          if k > 0 { assert ([b] + rest)[k] == rest[k - 1]; }
        }
      } else {
        ResetStep(c, i);
        RunReset(a, c, i, c[i := 0]);
        RunPermutes(a, c[i := 0], i + 1);
      }
    }
  }

  /** An input of length n gives n! arrays: the input itself first, and
      each of them a rearrangement of the input. */
  lemma HeapOrderProperties<T>(s: seq<T>)
    ensures |HeapOrder(s)| == Factorial(|s|)
    ensures HeapOrder(s)[0] == s
    ensures forall k :: 0 <= k < |HeapOrder(s)| ==> multiset(HeapOrder(s)[k]) == multiset(s)
  {
    HeapOrderCount(s);
    HeapOrderRearranges(s);
  }

  lemma HeapOrderCount<T>(s: seq<T>)
    ensures |HeapOrder(s)| == Factorial(|s|)
  {
    ZerosCounters(|s|);
    RunLength(s, Zeros(|s|), 1);
  }

  lemma HeapOrderRearranges<T>(s: seq<T>)
    ensures Rearrangements(HeapOrder(s), s)
  {
    ZerosCounters(|s|);
    RunPermutes(s, Zeros(|s|), 1);
    var rest := Run(s, Zeros(|s|), 1);
    forall k | 0 <= k < |[s] + rest| ensures multiset(([s] + rest)[k]) == multiset(s) {
      if k > 0 { assert ([s] + rest)[k] == rest[k - 1]; }
    }
  }

  // ----- the generator -----

  /** What the loop keeps: valid counters, and the arrays yielded so far
      followed by those still to come make up the whole output. */
  ghost predicate Pending<T>(input: seq<T>, out: seq<seq<T>>, a: seq<T>, c: seq<int>, i: nat) {
    |a| == |c| == |input| && Counters(c, i) && out + Run(a, c, i) == HeapOrder(input)
  }

  /** The loop invariant survives a pass that swaps and yields, and the
      count of yields goes up without passing n! - 1. */
  lemma LoopYield<T>(input: seq<T>, out: seq<seq<T>>, a: seq<T>, c: seq<int>, i: nat, b: seq<T>)
    requires Pending(input, out, a, c, i) && i < |a| && c[i] < i
    requires b == Swap(a, if i % 2 == 0 then 0 else c[i], i)
    ensures Pending(input, out + [b], b, c[i := c[i] + 1], 1)
    ensures 0 <= Factorial(|a|) - 1 - Emitted(c[i := c[i] + 1], 1) < Factorial(|a|) - 1 - Emitted(c, i)
  {
    YieldStep(c, i);
    RunYield(a, c, i, b, c[i := c[i] + 1]);
    assert (out + [b]) + Run(b, c[i := c[i] + 1], 1) == out + ([b] + Run(b, c[i := c[i] + 1], 1));
  }

  /** The loop invariant survives a pass that resets a counter, and the
      count of yields stays the same. */
  lemma LoopReset<T>(input: seq<T>, out: seq<seq<T>>, a: seq<T>, c: seq<int>, i: nat)
    requires Pending(input, out, a, c, i) && i < |a| && c[i] >= i
    ensures Pending(input, out, a, c[i := 0], i + 1)
    ensures 0 <= Factorial(|a|) - 1 - Emitted(c[i := 0], i + 1) == Factorial(|a|) - 1 - Emitted(c, i)
  {
    ResetStep(c, i);
    RunReset(a, c, i, c[i := 0]);
  }

  /** The loop starts with the copy of the input yielded, and ends with
      nothing more to come. */
  lemma LoopEnds<T>(input: seq<T>, out: seq<seq<T>>, a: seq<T>, c: seq<int>, i: nat)
    requires Pending(input, out, a, c, i)
    ensures i >= |a| ==> out == HeapOrder(input)
    ensures out == [input] && a == input && c == Zeros(|input|) && i == 1 ==>
              0 <= Factorial(|a|) - 1 - Emitted(c, i)
  {
    if out == [input] && a == input && c == Zeros(|input|) && i == 1 {
      ZerosCounters(|input|);
      RunLength(a, c, i);
    }
  }

  lemma LoopStarts<T>(input: seq<T>)
    ensures Pending(input, [input], input, Zeros(|input|), 1)
  {
    ZerosCounters(|input|);
  }

  /** `array.map(_ => 0)`: a new array of n zeros. */
  method ZeroArray(n: nat) returns (c: array<int>)
    ensures fresh(c) && c[..] == Zeros(n)
  {
    c := new int[n](_ => 0);
    assert c[..] == Zeros(n);
  }

  /** `Array.from(array)`: a new array holding the elements of s. */
  method CopyOf<T>(s: seq<T>) returns (a: array<T>)
    ensures fresh(a) && a[..] == s
  {
    a := new T[|s|](k requires 0 <= k < |s| => s[k]);
    assert a[..] == s;
  }

  /** The swap of one pass: a[i] with a[0] on even levels, with a[c[i]]
      on odd ones. */
  method SwapForLevel<T>(a: array<T>, i: nat, ci: nat)
    requires ci < i < a.Length
    modifies a
    ensures a[..] == Swap(old(a[..]), if i % 2 == 0 then 0 else ci, i)
  {
    var ai := a[i];
    if i % 2 == 0 {
      var first := a[0];
      a[0], a[i] := ai, first;
    } else {
      var aci := a[ci];
      a[ci], a[i] := ai, aci;
    }
  }

  /** `permutations(array)`: counters c, a working copy a of the input,
      and every array the loop yields, collected in order. */
  method Permutations<T>(input: seq<T>) returns (out: seq<seq<T>>)
    ensures out == HeapOrder(input)
  {
    var c := ZeroArray(|input|);
    var a := CopyOf(input);
    out := [a[..]];
    var i := 1;
    ghost var sa, sc := a[..], c[..];
    LoopStarts(input);
    LoopEnds(input, out, sa, sc, i);
    while i < a.Length
      invariant a.Length == c.Length == |input|
      invariant sa == a[..] && sc == c[..]
      invariant Pending(input, out, sa, sc, i)
      decreases Factorial(|input|) - 1 - Emitted(sc, i), a.Length - i
    {
      var ci := c[i];
      if ci < i {
        SwapForLevel(a, i, ci);
        LoopYield(input, out, sa, sc, i, a[..]);
        out := out + [a[..]];
        sa := a[..];
        c[i] := ci + 1;
        assert a[..] == sa && c[..] == sc[i := ci + 1];
        sc := c[..];
        i := 1;
      } else {
        LoopReset(input, out, sa, sc, i);
        c[i] := 0;
        assert a[..] == sa && c[..] == sc[i := 0];
        sc := c[..];
        i := i + 1;
      }
    }
    LoopEnds(input, out, sa, sc, i);
  }
}
