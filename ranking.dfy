/** Exhaustive pairwise ranking (src/algorithm.ts): the enumeration of all
    unordered pairs, its size, and `compareAllSort`, which asks the
    comparator about every pair once and ranks the items by their wins. */
module Ranking {
  import opened Common
  import opened Scores

  // ----- combinations2 and compareAllComparisons -----

  /** Row i of the enumeration: (i, i+1), ..., (i, n-1). */
  function Row(n: nat, i: nat): (r: seq<(nat, nat)>)
    requires i < n
    ensures |r| == n - i - 1
    ensures forall k :: 0 <= k < |r| ==> r[k] == (i, i + 1 + k)
  {
    seq(n - i - 1, k requires 0 <= k < n - i - 1 => (i, i + 1 + k))
  }

  /** Rows 0 .. i-1, one after the other. */
  function Rows(n: nat, i: nat): (r: seq<(nat, nat)>)
    requires i <= n
    ensures forall p: (nat, nat) :: p in r <==> p.0 < i && p.0 < p.1 < n
    decreases i
  {
    if i == 0 then []
    else
      var r := Rows(n, i - 1) + Row(n, i - 1);
      assert forall p: (nat, nat) :: p in Row(n, i - 1) <==> p.0 == i - 1 && p.0 < p.1 < n by {
        forall p: (nat, nat) | p.0 == i - 1 && p.0 < p.1 < n ensures p in Row(n, i - 1) {
          assert Row(n, i - 1)[p.1 - i] == p;
        }
      }
      r
  }

  /** The index pairs (i, j), i < j < n, that `combinations2` visits, in the
      order it visits them. */
  function IndexPairs(n: nat): seq<(nat, nat)> {
    Rows(n, n)
  }

  /** The pairs of items, for a list of index pairs. */
  function Lift<T>(items: seq<T>, ps: seq<(nat, nat)>): (r: seq<(T, T)>)
    requires forall p :: p in ps ==> p.0 < |items| && p.1 < |items|
    ensures |r| == |ps|
    ensures forall k :: 0 <= k < |ps| ==> r[k] == (items[ps[k].0], items[ps[k].1])
  {
    seq(|ps|, k requires 0 <= k < |ps| => (items[ps[k].0], items[ps[k].1]))
  }

  /** What `combinations2(items)` yields. */
  function Pairs<T>(items: seq<T>): (r: seq<(T, T)>)
    ensures 2 * |r| == |items| * (|items| - 1)
  {
    IndexPairsFacts(|items|);
    Lift(items, IndexPairs(|items|))
  }

  predicate LexLess(p: (nat, nat), q: (nat, nat)) {
    p.0 < q.0 || (p.0 == q.0 && p.1 < q.1)
  }

  lemma {:induction false} RowsLength(n: nat, i: nat)
    requires i <= n
    ensures 2 * |Rows(n, i)| == i * (2 * n - i - 1)
    decreases i
  {
    if i > 0 {
      RowsLength(n, i - 1);
      assert 2 * |Rows(n, i)| == (i - 1) * (2 * n - i) + 2 * (n - i);
      assert (i - 1) * (2 * n - i) == i * (2 * n - i) - (2 * n - i);
      assert i * (2 * n - i) - (2 * n - i) + 2 * (n - i) == i * (2 * n - i) - i;
    }
  }

  lemma {:induction false} RowsRowMajor(n: nat, i: nat)
    requires i <= n
    ensures forall a, b :: 0 <= a < b < |Rows(n, i)| ==> LexLess(Rows(n, i)[a], Rows(n, i)[b])
    decreases i
  {
    if i > 0 {
      RowsRowMajor(n, i - 1);
      var left, right := Rows(n, i - 1), Row(n, i - 1);
      var r := left + right;
      forall a, b | 0 <= a < b < |r| ensures LexLess(r[a], r[b]) {
        if b >= |left| {
          if a < |left| { assert r[a] in left; }
        }
      }
    }
  }

  /** `combinations2` yields each (items[i], items[j]) with i < j exactly
      once, in row-major order, n(n-1)/2 pairs in all. */
  lemma IndexPairsFacts(n: nat)
    ensures forall p: (nat, nat) :: p in IndexPairs(n) <==> p.0 < p.1 < n
    ensures 2 * |IndexPairs(n)| == n * (n - 1)
    ensures forall a, b :: 0 <= a < b < |IndexPairs(n)| ==> LexLess(IndexPairs(n)[a], IndexPairs(n)[b])
  {
    RowsLength(n, n);
    RowsRowMajor(n, n);
  }

  /** The pairs of distinct items are never an item against itself, and no
      unordered pair comes twice. */
  lemma PairsOfDistinct<T>(items: seq<T>)
    requires Distinct(items)
    ensures forall k :: 0 <= k < |Pairs(items)| ==> Pairs(items)[k].0 != Pairs(items)[k].1
    ensures forall a, b :: 0 <= a < b < |Pairs(items)| ==>
              Pairs(items)[a] != Pairs(items)[b] &&
              Pairs(items)[a] != (Pairs(items)[b].1, Pairs(items)[b].0)
  {
    var ps := IndexPairs(|items|);
    IndexPairsFacts(|items|);
    forall k | 0 <= k < |ps| ensures Pairs(items)[k].0 != Pairs(items)[k].1 {
      assert ps[k] in ps;
    }
    forall a, b | 0 <= a < b < |ps|
      ensures Pairs(items)[a] != Pairs(items)[b] &&
              Pairs(items)[a] != (Pairs(items)[b].1, Pairs(items)[b].0)
    {
      assert ps[a] in ps && ps[b] in ps;
      assert LexLess(ps[a], ps[b]);
    }
  }

  /** Both indices of every pair are below n. */
  predicate Bounded(ps: seq<(nat, nat)>, n: nat) {
    forall p :: p in ps ==> p.0 < n && p.1 < n
  }

  /** Lifting one more index pair appends its item pair. */
  lemma LiftSnoc<T>(items: seq<T>, ps: seq<(nat, nat)>, p: (nat, nat))
    requires Bounded(ps, |items|) && p.0 < |items| && p.1 < |items|
    ensures Bounded(ps + [p], |items|)
    ensures Lift(items, ps + [p]) == Lift(items, ps) + [(items[p.0], items[p.1])]
  {
    assert Bounded(ps + [p], |items|);
    var l, r := Lift(items, ps + [p]), Lift(items, ps) + [(items[p.0], items[p.1])];
    forall k | 0 <= k < |l| ensures l[k] == r[k] {
      if k < |ps| { assert (ps + [p])[k] == ps[k]; }
    }
  }

  /** The prefix of row i up to (i, j). */
  lemma RowPrefixStep(n: nat, i: nat, j: nat)
    requires i < j < n
    ensures Row(n, i)[..j - i] == Row(n, i)[..j - i - 1] + [(i, j)]
  {
  }

  /** A whole row finished is the start of the next rows. */
  lemma RowsNext(n: nat, i: nat)
    requires i < n
    ensures Rows(n, i) + Row(n, i)[..n - i - 1] == Rows(n, i + 1)
  {
    assert Row(n, i)[..n - i - 1] == Row(n, i);
  }

  /** `combinations2`: the nested loops of the generator, collected. */
  method Combinations2<T>(items: seq<T>) returns (pairs: seq<(T, T)>)
    ensures pairs == Pairs(items)
  {
    var n := |items|;
    pairs := [];
    ghost var done: seq<(nat, nat)> := [];
    var i := 0;
    while i < n
      invariant 0 <= i <= n && done == Rows(n, i)
      invariant Bounded(done, n) && pairs == Lift(items, done)
    {
      var j := i + 1;
      while j < n
        invariant i + 1 <= j <= n && done == Rows(n, i) + Row(n, i)[..j - i - 1]
        invariant Bounded(done, n) && pairs == Lift(items, done)
      {
        RowPrefixStep(n, i, j);
        LiftSnoc(items, done, (i, j));
        pairs := pairs + [(items[i], items[j])];
        done := done + [(i, j)];
        j := j + 1;
      }
      RowsNext(n, i);
      i := i + 1;
    }
  }

  /** `compareAllComparisons(n)`: n! / (2 (n-2)!) in big-integer arithmetic,
      the factorial of a non-positive number being 1. */
  function CompareAllComparisons(n: int): (r: int)
    ensures r >= 0
    ensures n <= 1 ==> r == 0
  {
    Factorial(n) / (2 * Factorial(n - 2))
  }

  lemma DivideExact(q: int, d: int)
    requires d > 0
    ensures (q * d) / d == q
  {
    var r, m := (q * d) / d, (q * d) % d;
    assert d * (q - r) == m;
    if q - r >= 1 {
      MulAtLeast(d, q - r);
    } else if q - r <= -1 {
      MulAtLeast(d, r - q);
    }
  }

  lemma MulAtLeast(d: int, k: int)
    requires d > 0 && k >= 1
    ensures d * k >= d
  {
    assert d * k == d + d * (k - 1);
  }

  /** The number of comparisons `compareAllSort` makes is C(n, 2) for every
      n >= 0 (0 for n = 0 and n = 1), and 0 for a negative n. */
  lemma CompareAllComparisonsClosedForm(n: int)
    ensures n >= 0 ==> 2 * CompareAllComparisons(n) == n * (n - 1)
    ensures n >= 0 ==> CompareAllComparisons(n) == |IndexPairs(n)|
    ensures n < 0 ==> CompareAllComparisons(n) == 0
  {
    if n >= 2 {
      FactorialTwoSteps(n);
      IndexPairsFacts(n);
      QuotientOfPairs(Factorial(n), Factorial(n - 2), n * (n - 1), |IndexPairs(n)|);
    } else if n >= 0 {
      IndexPairsFacts(n);
      assert Factorial(n) == 1 && Factorial(n - 2) == 1;
    }
  }

  /** n! = n(n-1) (n-2)! for n >= 2. */
  lemma FactorialTwoSteps(n: int)
    requires n >= 2
    ensures Factorial(n) == (n * (n - 1)) * Factorial(n - 2)
  {
    var m := Factorial(n - 2);
    assert Factorial(n) == n * ((n - 1) * m);
    assert n * ((n - 1) * m) == (n * (n - 1)) * m;
  }

  /** f = p m and p = 2q give f / (2m) = q. */
  lemma QuotientOfPairs(f: int, m: int, p: int, q: int)
    requires m >= 1 && f == p * m && p == 2 * q
    ensures f / (2 * m) == q
  {
    assert f == q * (2 * m);
    DivideExact(q, 2 * m);
  }

  // ----- compareAllSort -----

  /** The comparator's answers to the pairs, in order, or the first failure. */
  function Answers(ps: seq<(string, string)>, cmp: Comparator): (r: Result<seq<Bit>>)
    ensures r.Ok? ==> |r.value| == |ps|
    decreases |ps|
  {
    if ps == [] then Ok([])
    else
      match Answers(ps[..|ps| - 1], cmp)
      case Err(e) => Err(e)
      case Ok(prefix) =>
        match cmp(ps[|ps| - 1].0, ps[|ps| - 1].1)
        case Err(e) => Err(e)
        case Ok(b) => Ok(prefix + [b])
  }

  /** The calls that are made: every pair up to and including the first one
      the comparator fails on. */
  function Asked(ps: seq<(string, string)>, cmp: Comparator): seq<(string, string)>
    decreases |ps|
  {
    if ps == [] then []
    else if Answers(ps[..|ps| - 1], cmp).Err? then Asked(ps[..|ps| - 1], cmp)
    else ps
  }

  lemma {:induction false} AnswersOk(ps: seq<(string, string)>, cmp: Comparator)
    requires Answers(ps, cmp).Ok?
    ensures Asked(ps, cmp) == ps
    ensures forall k :: 0 <= k < |ps| ==> cmp(ps[k].0, ps[k].1) == Ok(Answers(ps, cmp).value[k])
    decreases |ps|
  {
    if ps != [] {
      var init := ps[..|ps| - 1];
      AnswersOk(init, cmp);
      forall k | 0 <= k < |ps| ensures cmp(ps[k].0, ps[k].1) == Ok(Answers(ps, cmp).value[k]) {
        if k < |init| { assert ps[k] == init[k]; }
      }
    }
  }

  /** A failure at position k ends the run: that error is the result and
      the calls stop there. */
  lemma {:induction false} AnswersFailAt(ps: seq<(string, string)>, cmp: Comparator, k: nat)
    requires k < |ps| && Answers(ps[..k], cmp).Ok? && cmp(ps[k].0, ps[k].1).Err?
    ensures Answers(ps, cmp) == Err(cmp(ps[k].0, ps[k].1).error)
    ensures Asked(ps, cmp) == ps[..k + 1]
    decreases |ps|
  {
    var init := ps[..|ps| - 1];
    if k < |ps| - 1 {
      assert init[..k] == ps[..k] && init[k] == ps[k];
      AnswersFailAt(init, cmp, k);
      assert init[..k + 1] == ps[..k + 1];
    } else {
      assert init == ps[..k];
      assert ps[..k + 1] == ps;
    }
  }

  /** The item that gets the point for answer b to pair p. */
  function Winner(p: (string, string), b: Bit): string {
    if b == 1 then p.1 else p.0
  }

  /** How many of the answered pairs x won. */
  function Wins(x: string, ps: seq<(string, string)>, ans: seq<Bit>): nat
    requires |ps| == |ans|
    decreases |ps|
  {
    if ps == [] then 0
    else Wins(x, ps[..|ps| - 1], ans[..|ans| - 1])
         + (if Winner(ps[|ps| - 1], ans[|ans| - 1]) == x then 1 else 0)
  }

  /** The raw results: every item with its number of wins, in item order. */
  function Tally(items: seq<string>, ps: seq<(string, string)>, ans: seq<Bit>): (r: seq<Entry>)
    requires |ps| == |ans|
    ensures |r| == |items|
    ensures forall k :: 0 <= k < |items| ==> r[k] == Entry(items[k], Wins(items[k], ps, ans))
  {
    seq(|items|, k requires 0 <= k < |items| => Entry(items[k], Wins(items[k], ps, ans)))
  }

  function Names(s: seq<Entry>): (r: seq<string>)
    ensures |r| == |s|
    ensures forall k :: 0 <= k < |s| ==> r[k] == s[k].item
  {
    seq(|s|, k requires 0 <= k < |s| => s[k].item)
  }

  /** What `compareAllSort(items, comparator)` resolves to. */
  function CompareAll(items: seq<string>, cmp: Comparator): (r: Result<seq<Entry>>)
    ensures !Distinct(items) ==> r == Err(DuplicateItems)
    ensures r.Ok? ==> |r.value| == |items|
  {
    SetSizeDetectsDuplicates(items);
    if |ToSet(items)| != |items| then Err(DuplicateItems)
    else
      match Answers(Pairs(items), cmp)
      case Err(e) => Err(e)
      case Ok(ans) => Ok(Normalize(SortSeq(Asc, Tally(items, Pairs(items), ans))))
  }

  /** The comparator calls `compareAllSort(items, comparator)` makes. */
  function CompareAllCalls(items: seq<string>, cmp: Comparator): (calls: seq<(string, string)>)
    ensures !Distinct(items) ==> calls == []
  {
    SetSizeDetectsDuplicates(items);
    if |ToSet(items)| != |items| then [] else Asked(Pairs(items), cmp)
  }

  /** One more answered pair: the answers grow by it and exactly its winner
      gets one more win. */
  lemma StepFacts(ps: seq<(string, string)>, ans: seq<Bit>, b: Bit, cmp: Comparator)
    requires |ps| == |ans| + 1
    requires Answers(ps[..|ans|], cmp) == Ok(ans) && cmp(ps[|ans|].0, ps[|ans|].1) == Ok(b)
    ensures Answers(ps, cmp) == Ok(ans + [b])
    ensures forall x :: Wins(x, ps, ans + [b]) == Wins(x, ps[..|ans|], ans) + (if Winner(ps[|ans|], b) == x then 1 else 0)
  {
    assert (ans + [b])[..|ans|] == ans;
  }

  /** The scoring loop of `compareAllSort`: ask about every pair in turn and
      count each answer's winner, stopping at the first failure. */
  method ScorePairs(items: seq<string>, pairs: seq<(string, string)>, cmp: Comparator)
    returns (r: Result<map<string, nat>>, ghost ans: seq<Bit>, ghost calls: seq<(string, string)>)
    requires forall p :: p in pairs ==> p.0 in items && p.1 in items
    ensures calls == Asked(pairs, cmp)
    ensures r.Err? ==> Answers(pairs, cmp) == Err(r.error)
    ensures r.Ok? ==> Answers(pairs, cmp) == Ok(ans)
    ensures r.Ok? ==> forall x :: x in items ==> x in r.value && r.value[x] == Wins(x, pairs, ans)
  {
    var scores: map<string, nat> := map x | x in items :: 0;
    ans := [];
    var k := 0;
    while k < |pairs|
      invariant 0 <= k <= |pairs|
      invariant Tallied(items, pairs[..k], cmp, ans, scores)
    {
      var (a, b) := pairs[k];
      var c := cmp(a, b);
      if c.Err? {
        AnswersFailAt(pairs, cmp, k);
        return Err(c.error), ans, pairs[..k + 1];
      }
      var winner := if c.value == 1 then b else a;
      assert pairs[k] in pairs;
      var s := scores[winner];
      var next := scores[winner := if s != 0 then s + 1 else 1];
      ScoreStep(items, pairs, cmp, k, ans, scores, c.value, next);
      scores := next;
      ans := ans + [c.value];
      k := k + 1;
    }
    assert pairs[..k] == pairs;
    AnswersOk(pairs, cmp);
    return Ok(scores), ans, pairs;
  }

  /** The scoring loop's state after the pairs `done`: all of them were
      answered, with `ans`, and every item's score is its number of wins. */
  predicate Tallied(items: seq<string>, done: seq<(string, string)>, cmp: Comparator,
                    ans: seq<Bit>, scores: map<string, nat>) {
    && Answers(done, cmp) == Ok(ans)
    && |ans| == |done|
    && forall x :: x in items ==> x in scores && scores[x] == Wins(x, done, ans)
  }

  /** One more answered pair: its winner's score goes up by one. */
  lemma ScoreStep(items: seq<string>, pairs: seq<(string, string)>, cmp: Comparator, k: nat,
                  ans: seq<Bit>, scores: map<string, nat>, b: Bit, next: map<string, nat>)
    requires k < |pairs| && pairs[k].0 in items && pairs[k].1 in items
    requires Tallied(items, pairs[..k], cmp, ans, scores)
    requires cmp(pairs[k].0, pairs[k].1) == Ok(b)
    requires next == scores[Winner(pairs[k], b) := scores[Winner(pairs[k], b)] + 1]
    ensures Tallied(items, pairs[..k + 1], cmp, ans + [b], next)
  {
    assert pairs[..k + 1][..k] == pairs[..k];
    StepFacts(pairs[..k + 1], ans, b, cmp);
  }

  /** `compareAllSort`. */
  method CompareAllSort(items: seq<string>, cmp: Comparator)
    returns (r: Result<seq<Entry>>, ghost calls: seq<(string, string)>)
    ensures r == CompareAll(items, cmp)
    ensures calls == CompareAllCalls(items, cmp)
  {
    if |ToSet(items)| != |items| {
      return Err(DuplicateItems), [];
    }
    var pairs := Combinations2(items);
    PairsAmongItems(items);
    var scored;
    ghost var ans;
    scored, ans, calls := ScorePairs(items, pairs, cmp);
    if scored.Err? {
      return Err(scored.error), calls;
    }
    var scores := scored.value;
    ghost var raw := Tally(items, pairs, ans);
    var arr := new Entry[|items|](i requires 0 <= i < |items| && items[i] in scores => Entry(items[i], scores[items[i]]));
    TallyOfScores(items, pairs, ans, scores, arr[..]);
    SortResults(arr, Asc);
    SortedUnique(Asc, arr[..], SortSeq(Asc, raw));
    NormalizeScores(arr);
    r := Ok(arr[..]);
  }

  /** Every pair of `combinations2` pairs two of the items. */
  lemma PairsAmongItems(items: seq<string>)
    ensures forall p :: p in Pairs(items) ==> p.0 in items && p.1 in items
  {
    IndexPairsFacts(|items|);
    var pairs := Pairs(items);
    forall p | p in pairs ensures p.0 in items && p.1 in items {
      var k :| 0 <= k < |pairs| && pairs[k] == p;
      assert IndexPairs(|items|)[k] in IndexPairs(|items|);
    }
  }

  /** The results array built from the scores is the raw tally. */
  lemma TallyOfScores(items: seq<string>, pairs: seq<(string, string)>, ans: seq<Bit>,
                      scores: map<string, nat>, raw: seq<Entry>)
    requires |pairs| == |ans| && |raw| == |items|
    requires forall x :: x in items ==> x in scores && scores[x] == Wins(x, pairs, ans)
    requires forall i :: 0 <= i < |items| ==> items[i] in scores && raw[i] == Entry(items[i], scores[items[i]])
    ensures raw == Tally(items, pairs, ans)
  {
  }

  // ----- what compareAllSort promises -----

  /** The wins of x, in the run where every pair was answered. */
  function Points(items: seq<string>, cmp: Comparator, x: string): nat
    requires Answers(Pairs(items), cmp).Ok?
  {
    Wins(x, Pairs(items), Answers(Pairs(items), cmp).value)
  }

  /** Two sequences with the same elements have the same names. */
  lemma NamesPermutation(s: seq<Entry>, u: seq<Entry>)
    requires multiset(s) == multiset(u)
    ensures multiset(Names(s)) == multiset(Names(u))
  {
    var item := (e: Entry) => e.item;
    MapSeqPermutation(item, s, u);
    forall k | 0 <= k < |s| ensures Names(s)[k] == MapSeq(item, s)[k] { MapSeqIndex(item, s, k); }
    forall k | 0 <= k < |u| ensures Names(u)[k] == MapSeq(item, u)[k] { MapSeqIndex(item, u, k); }
    assert Names(s) == MapSeq(item, s);
    assert Names(u) == MapSeq(item, u);
  }

  /** The successful result, unfolded: the tally of wins, sorted and normalized. */
  lemma CompareAllOk(items: seq<string>, cmp: Comparator)
    requires CompareAll(items, cmp).Ok?
    ensures Distinct(items) && Answers(Pairs(items), cmp).Ok?
    ensures CompareAll(items, cmp).value ==
              Normalize(SortSeq(Asc, Tally(items, Pairs(items), Answers(Pairs(items), cmp).value)))
    ensures CompareAllCalls(items, cmp) == Pairs(items)
  {
    SetSizeDetectsDuplicates(items);
    AnswersOk(Pairs(items), cmp);
  }

  /** A successful `compareAllSort` asked about every pair of `combinations2`
      once, in its order, n(n-1)/2 calls, never an item against itself. */
  lemma CompareAllAsksEveryPair(items: seq<string>, cmp: Comparator)
    requires CompareAll(items, cmp).Ok?
    ensures CompareAllCalls(items, cmp) == Pairs(items)
    ensures 2 * |CompareAllCalls(items, cmp)| == |items| * (|items| - 1)
    ensures forall k :: 0 <= k < |CompareAllCalls(items, cmp)| ==>
              CompareAllCalls(items, cmp)[k].0 != CompareAllCalls(items, cmp)[k].1
  {
    CompareAllOk(items, cmp);
    IndexPairsFacts(|items|);
    PairsOfDistinct(items);
  }

  /** The result of a successful `compareAllSort` holds the items, each once,
      sorted ascending by (score, name), with normalized scores. */
  lemma CompareAllRanking(items: seq<string>, cmp: Comparator)
    requires CompareAll(items, cmp).Ok?
    ensures multiset(Names(CompareAll(items, cmp).value)) == multiset(items)
    ensures Sorted(Asc, CompareAll(items, cmp).value)
    ensures Dense(CompareAll(items, cmp).value)
  {
    CompareAllOk(items, cmp);
    var raw := Tally(items, Pairs(items), Answers(Pairs(items), cmp).value);
    var t := SortSeq(Asc, raw);
    assert Names(raw) == items;
    NamesPermutation(t, raw);
    assert Names(Normalize(t)) == Names(t);
    NormalizeKeepsSorted(t);
    if |t| > 0 {
      assert t[0] in multiset(raw);
    }
  }

  /** On ascending scores, normalizing keeps the strict order between any
      two positions, whichever comes first. */
  lemma NormalizeRanks(t: seq<Entry>, i: nat, j: nat)
    requires Ascending(t) && i < |t| && j < |t|
    ensures Normalize(t)[i].score < Normalize(t)[j].score <==> t[i].score < t[j].score
  {
    if i <= j { NormalizeKeepsOrder(t, i, j); } else { NormalizeKeepsOrder(t, j, i); }
  }

  /** Any arrangement of the tally scores each item by its wins. */
  lemma TallyScores(items: seq<string>, ps: seq<(string, string)>, ans: seq<Bit>, t: seq<Entry>)
    requires |ps| == |ans| && multiset(t) == multiset(Tally(items, ps, ans))
    ensures forall k :: 0 <= k < |t| ==> t[k].score == Wins(t[k].item, ps, ans)
  {
    forall k | 0 <= k < |t| ensures t[k].score == Wins(t[k].item, ps, ans) {
      assert t[k] in multiset(Tally(items, ps, ans));
    }
  }

  lemma RankedByWins(t: seq<Entry>, ps: seq<(string, string)>, ans: seq<Bit>)
    requires |ps| == |ans| && Ascending(t)
    requires forall k :: 0 <= k < |t| ==> t[k].score == Wins(t[k].item, ps, ans)
    ensures forall i, j :: 0 <= i < |t| && 0 <= j < |t| ==>
              (Normalize(t)[i].score < Normalize(t)[j].score <==>
               Wins(Normalize(t)[i].item, ps, ans) < Wins(Normalize(t)[j].item, ps, ans))
  {
    forall i, j | 0 <= i < |t| && 0 <= j < |t|
      ensures Normalize(t)[i].score < Normalize(t)[j].score <==>
              Wins(Normalize(t)[i].item, ps, ans) < Wins(Normalize(t)[j].item, ps, ans)
    {
      NormalizeRanks(t, i, j);
    }
  }

  /** Scores rank the items exactly as their numbers of wins do, ties
      included. */
  lemma CompareAllByWins(items: seq<string>, cmp: Comparator)
    requires CompareAll(items, cmp).Ok?
    ensures Answers(Pairs(items), cmp).Ok?
    ensures forall i, j :: 0 <= i < |items| && 0 <= j < |items| ==>
              (CompareAll(items, cmp).value[i].score < CompareAll(items, cmp).value[j].score <==>
               Points(items, cmp, CompareAll(items, cmp).value[i].item) < Points(items, cmp, CompareAll(items, cmp).value[j].item))
  {
    CompareAllOk(items, cmp);
    var ps := Pairs(items);
    var ans := Answers(ps, cmp).value;
    var t := SortSeq(Asc, Tally(items, ps, ans));
    TallyScores(items, ps, ans, t);
    SortedAscending(t);
    RankedByWins(t, ps, ans);
  }

  /** When every item wins equally often (a cyclic comparator, say), the
      ranking ties them all at score 0. */
  lemma CompareAllEqualWins(items: seq<string>, cmp: Comparator)
    requires CompareAll(items, cmp).Ok? && Answers(Pairs(items), cmp).Ok?
    requires forall x, y :: x in items && y in items ==> Points(items, cmp, x) == Points(items, cmp, y)
    ensures forall k :: 0 <= k < |items| ==> CompareAll(items, cmp).value[k].score == 0
  {
    CompareAllByWins(items, cmp);
    CompareAllRanking(items, cmp);
    var r := CompareAll(items, cmp).value;
    forall k | 0 <= k < |items| ensures r[k].score == 0 {
      assert r[k].item in multiset(items) by { assert Names(r)[k] in multiset(Names(r)); }
      assert r[0].item in multiset(items) by { assert Names(r)[0] in multiset(Names(r)); }
    }
  }

  /** When the comparator fails on the k-th pair, having answered all before
      it, `compareAllSort` fails with that error after exactly k+1 calls. */
  lemma CompareAllFailure(items: seq<string>, cmp: Comparator, k: nat)
    requires Distinct(items) && k < |Pairs(items)|
    requires Answers(Pairs(items)[..k], cmp).Ok?
    requires cmp(Pairs(items)[k].0, Pairs(items)[k].1).Err?
    ensures CompareAll(items, cmp) == Err(cmp(Pairs(items)[k].0, Pairs(items)[k].1).error)
    ensures CompareAllCalls(items, cmp) == Pairs(items)[..k + 1]
  {
    SetSizeDetectsDuplicates(items);
    AnswersFailAt(Pairs(items), cmp, k);
  }

}
