/** Score utilities over ranked results (src/algorithm.ts): ordering by
    (score, name), renumbering scores without gaps, and finding the runs of
    tied scores. */
module Scores {
  import opened Common

  /** One ranked result, the tuple (item, score). */
  datatype Entry = Entry(item: string, score: int)

  /** The two directions `sortResults` knows. */
  datatype Order = Asc | Desc

  /** x sorts strictly before y: by score in the given direction, then by
      ascending name. */
  predicate Before(order: Order, x: Entry, y: Entry) {
    if x.score != y.score then
      (if order == Asc then x.score < y.score else x.score > y.score)
    else NameLess(x.item, y.item)
  }

  predicate Leq(order: Order, x: Entry, y: Entry) {
    x == y || Before(order, x, y)
  }

  lemma BeforeTotal(order: Order, x: Entry, y: Entry)
    ensures x == y || Before(order, x, y) || Before(order, y, x)
    ensures !(Before(order, x, y) && Before(order, y, x))
  {
    NameLessTrichotomy(x.item, y.item);
  }

  lemma LeqTransitive(order: Order, x: Entry, y: Entry, z: Entry)
    requires Leq(order, x, y) && Leq(order, y, z)
    ensures Leq(order, x, z)
  {
    if x != y && y != z && x.score == y.score && y.score == z.score {
      NameLessTransitive(x.item, y.item, z.item);
    }
  }

  predicate Sorted(order: Order, s: seq<Entry>) {
    forall i, j :: 0 <= i < j < |s| ==> Leq(order, s[i], s[j])
  }

  /** Inserting one entry into a sorted sequence, at its place. */
  function Insert(order: Order, x: Entry, s: seq<Entry>): (r: seq<Entry>)
    ensures |r| == |s| + 1
    ensures multiset(r) == multiset(s) + multiset{x}
  {
    if s == [] then [x]
    else if Leq(order, x, s[0]) then [x] + s
    else
      assert s == [s[0]] + s[1..];
      [s[0]] + Insert(order, x, s[1..])
  }

  lemma {:induction false} InsertSorted(order: Order, x: Entry, s: seq<Entry>)
    requires Sorted(order, s)
    ensures Sorted(order, Insert(order, x, s))
  {
    if s == [] {
    } else if Leq(order, x, s[0]) {
      var r := [x] + s;
      forall i, j | 0 <= i < j < |r| ensures Leq(order, r[i], r[j]) {
        if i == 0 && j > 1 { LeqTransitive(order, x, s[0], r[j]); }
      }
    } else {
      InsertSorted(order, x, s[1..]);
      InsertBehindHead(order, x, s);
    }
  }

  /** An entry that goes behind the head: the head stays in front of the
      sorted insertion into the tail. */
  lemma InsertBehindHead(order: Order, x: Entry, s: seq<Entry>)
    requires Sorted(order, s) && s != [] && !Leq(order, x, s[0])
    requires Sorted(order, Insert(order, x, s[1..]))
    ensures Sorted(order, Insert(order, x, s))
  {
    BeforeTotal(order, x, s[0]);
    HeadFirst(order, s, Insert(order, x, s[1..]), x);
    ConsSorted(order, s[0], Insert(order, x, s[1..]));
    assert Insert(order, x, s) == [s[0]] + Insert(order, x, s[1..]);
  }

  /** The head of a sorted sequence comes no later than anything in its tail
      or than an entry placed behind it. */
  lemma HeadFirst(order: Order, s: seq<Entry>, rest: seq<Entry>, x: Entry)
    requires Sorted(order, s) && s != [] && Leq(order, s[0], x)
    requires multiset(rest) == multiset(s[1..]) + multiset{x}
    ensures forall j :: 0 <= j < |rest| ==> Leq(order, s[0], rest[j])
  {
    forall j | 0 <= j < |rest| ensures Leq(order, s[0], rest[j]) {
      assert rest[j] in multiset(rest);
      if rest[j] != x {
        assert rest[j] in multiset(s[1..]);
        var k :| 0 <= k < |s[1..]| && s[1..][k] == rest[j];
        assert s[k + 1] == s[1..][k];
      }
    }
  }

  /** A head no later than every entry of a sorted sequence keeps it sorted. */
  lemma ConsSorted(order: Order, h: Entry, rest: seq<Entry>)
    requires Sorted(order, rest) && forall j :: 0 <= j < |rest| ==> Leq(order, h, rest[j])
    ensures Sorted(order, [h] + rest)
  {
    var r := [h] + rest;
    forall i, j | 0 <= i < j < |r| ensures Leq(order, r[i], r[j]) {
      if i == 0 { assert r[j] == rest[j - 1]; }
      else { assert r[i] == rest[i - 1] && r[j] == rest[j - 1]; }
    }
  }

  /** The sorting that `sortResults` delegates to the library: a pure
      insertion sort, used as the reference result. */
  function SortSeq(order: Order, s: seq<Entry>): (r: seq<Entry>)
    ensures |r| == |s|
    ensures multiset(r) == multiset(s)
    ensures Sorted(order, r)
  {
    if s == [] then []
    else
      assert s == [s[0]] + s[1..];
      var rest := SortSeq(order, s[1..]);
      InsertSorted(order, s[0], rest);
      Insert(order, s[0], rest)
  }

  /** "Sorts strictly before", as a relation. */
  function BeforeIn(order: Order): (Entry, Entry) -> bool {
    (x, y) => Before(order, x, y)
  }

  /** ... which is a strict total order on all entries. */
  lemma BeforeStrictTotal(order: Order, s: seq<Entry>)
    ensures StrictTotalOn(BeforeIn(order), s)
  {
    var less := BeforeIn(order);
    forall a | a in s ensures !less(a, a) {
      BeforeTotal(order, a, a);
    }
    forall a, b, c | a in s && b in s && c in s && less(a, b) && less(b, c) ensures less(a, c) {
      LeqTransitive(order, a, b, c);
      BeforeTotal(order, a, b);
    }
    forall a, b | a in s && b in s && a != b ensures less(a, b) || less(b, a) {
      BeforeTotal(order, a, b);
    }
  }

  /** A sorted sequence is ascending in that order. */
  lemma SortedOrderedBy(order: Order, s: seq<Entry>)
    requires Sorted(order, s)
    ensures OrderedBy(BeforeIn(order), s)
  {
    forall i, j | 0 <= i < j < |s| ensures !Before(order, s[j], s[i]) {
      BeforeTotal(order, s[i], s[j]);
    }
  }

  /** Two sorted arrangements of the same entries are the same sequence, so
      the result of sorting does not depend on the algorithm used. */
  lemma SortedUnique(order: Order, s: seq<Entry>, t: seq<Entry>)
    requires Sorted(order, s) && Sorted(order, t)
    requires multiset(s) == multiset(t)
    ensures s == t
  {
    BeforeStrictTotal(order, s);
    SortedOrderedBy(order, s);
    SortedOrderedBy(order, t);
    OrderedUnique(BeforeIn(order), s, t);
  }

  /** `sortResults`: sorts in place by score (ascending or descending), then
      by ascending name. The library sort is a black box known only by its
      postcondition. */
  method SortResults(a: array<Entry>, order: Order)
    modifies a
    ensures Sorted(order, a[..])
    ensures multiset(a[..]) == multiset(old(a[..]))
  {
    var sorted := SortSeq(order, a[..]);
    forall k | 0 <= k < a.Length {
      a[k] := sorted[k];
    }
    assert a[..] == sorted;
  }

  // ----- normalizeScores -----

  /** How often the score changes between neighbours among s[0..k]. */
  function Changes(s: seq<Entry>, k: nat): nat
    requires k < |s|
  {
    if k == 0 then 0
    else Changes(s, k - 1) + (if s[k].score != s[k - 1].score then 1 else 0)
  }

  /** The renumbered score of position k: one more for every change seen so
      far. A first score equal to the start value -1 is not seen as a change. */
  function NormalizedScore(s: seq<Entry>, k: nat): int
    requires k < |s|
  {
    Changes(s, k) - (if s[0].score == -1 then 1 else 0)
  }

  /** What `normalizeScores` leaves in the array. */
  function Normalize(s: seq<Entry>): (r: seq<Entry>)
    ensures |r| == |s|
    ensures forall k :: 0 <= k < |s| ==> r[k].item == s[k].item
    ensures |s| > 0 && s[0].score != -1 ==> r[0].score == 0
    ensures forall k :: 0 < k < |s| ==>
              (r[k].score == r[k - 1].score <==> s[k].score == s[k - 1].score)
    ensures forall k :: 0 < k < |s| ==>
              r[k].score == r[k - 1].score || r[k].score == r[k - 1].score + 1
  {
    seq(|s|, k requires 0 <= k < |s| => Entry(s[k].item, NormalizedScore(s, k)))
  }

  /** Scores start at zero and rise by at most one between neighbours. */
  predicate Dense(s: seq<Entry>) {
    && (|s| > 0 ==> s[0].score == 0)
    && forall k :: 0 < k < |s| ==>
         s[k].score == s[k - 1].score || s[k].score == s[k - 1].score + 1
  }

  /** Scores never fall from one entry to the next. */
  predicate Ascending(s: seq<Entry>) {
    forall k :: 0 < k < |s| ==> s[k - 1].score <= s[k].score
  }

  /** Sorted by ascending score, the scores never fall. */
  lemma SortedAscending(s: seq<Entry>)
    requires Sorted(Asc, s)
    ensures Ascending(s)
  {
    forall k | 0 < k < |s| ensures s[k - 1].score <= s[k].score {
      assert Leq(Asc, s[k - 1], s[k]);
    }
  }

  lemma {:induction false} ChangesOfDense(s: seq<Entry>, k: nat)
    requires Dense(s) && k < |s|
    ensures Changes(s, k) == s[k].score
  {
    if k > 0 { ChangesOfDense(s, k - 1); }
  }

  /** Normalizing scores that already have no gaps changes nothing. */
  lemma NormalizeFixesDense(s: seq<Entry>)
    requires Dense(s)
    ensures Normalize(s) == s
  {
    forall k | 0 <= k < |s| ensures Normalize(s)[k] == s[k] {
      ChangesOfDense(s, k);
    }
  }

  /** `normalizeScores` is idempotent. */
  lemma NormalizeIdempotent(s: seq<Entry>)
    requires |s| > 0 ==> s[0].score != -1
    ensures Normalize(Normalize(s)) == Normalize(s)
  {
    NormalizeFixesDense(Normalize(s));
  }

  lemma {:induction false} ChangesKeepOrder(s: seq<Entry>, i: nat, j: nat)
    requires Ascending(s) && i <= j < |s|
    ensures Changes(s, i) == Changes(s, j) <==> s[i].score == s[j].score
    ensures Changes(s, i) < Changes(s, j) <==> s[i].score < s[j].score
    decreases j - i
  {
    if i < j {
      ChangesKeepOrder(s, i, j - 1);
      AscendingPairs(s, i, j - 1);
      assert s[j - 1].score <= s[j].score;
    }
  }

  /** On scores that never fall, any two positions compare the same way
      before and after normalizing: ties are kept and nothing is reordered. */
  lemma NormalizeKeepsOrder(s: seq<Entry>, i: nat, j: nat)
    requires Ascending(s) && i <= j < |s|
    ensures Normalize(s)[i].score == Normalize(s)[j].score <==> s[i].score == s[j].score
    ensures Normalize(s)[i].score < Normalize(s)[j].score <==> s[i].score < s[j].score
  {
    ChangesKeepOrder(s, i, j);
    var r := Normalize(s);
    assert r[i].score == NormalizedScore(s, i) && r[j].score == NormalizedScore(s, j);
  }

  lemma {:induction false} AscendingPairs(s: seq<Entry>, i: nat, j: nat)
    requires Ascending(s) && i <= j < |s|
    ensures s[i].score <= s[j].score
    decreases j - i
  {
    if i < j { AscendingPairs(s, i, j - 1); }
  }

  /** Entries sorted ascending stay sorted when their scores are normalized. */
  lemma NormalizeKeepsSorted(s: seq<Entry>)
    requires Sorted(Asc, s)
    ensures Sorted(Asc, Normalize(s))
  {
    assert Ascending(s);
    var r := Normalize(s);
    forall i, j | 0 <= i < j < |s| ensures Leq(Asc, r[i], r[j]) {
      NormalizeKeepsOrder(s, i, j);
      assert Leq(Asc, s[i], s[j]);
    }
  }

  /** `normalizeScores`: renumbers the scores in place, the first to 0, then
      one more at every change of score. */
  method NormalizeScores(a: array<Entry>)
    modifies a
    ensures a[..] == Normalize(old(a[..]))
  {
    ghost var s := a[..];
    ghost var r := Normalize(s);
    var prevScore := -1;
    var curScore := -1;
    var idx := 0;
    while idx < a.Length
      invariant 0 <= idx <= a.Length
      invariant forall k :: 0 <= k < idx ==> a[k] == r[k]
      invariant forall k :: idx <= k < a.Length ==> a[k] == s[k]
      invariant idx == 0 ==> prevScore == -1 && curScore == -1
      invariant idx > 0 ==> prevScore == s[idx - 1].score && curScore == NormalizedScore(s, idx - 1)
    {
      assert r[idx] == Entry(s[idx].item, NormalizedScore(s, idx));
      if a[idx].score != prevScore {
        prevScore := a[idx].score;
        curScore := curScore + 1;
        a[idx] := a[idx].(score := curScore);
      } else {
        a[idx] := a[idx].(score := curScore);
      }
      idx := idx + 1;
    }
    assert a[..] == r;
  }

  // ----- findTieGroups -----

  /** The first index after i whose score differs from that of i. */
  function RunEnd(s: seq<Entry>, i: nat): (e: nat)
    requires i < |s|
    ensures i < e <= |s|
    ensures forall k :: i <= k < e ==> s[k].score == s[i].score
    ensures e < |s| ==> s[e].score != s[i].score
    decreases |s| - i
  {
    if i + 1 < |s| && s[i + 1].score == s[i].score then RunEnd(s, i + 1) else i + 1
  }

  /** A constant stretch from p ending where the score changes is the run of p. */
  lemma {:induction false} RunEndIs(s: seq<Entry>, p: nat, e: nat)
    requires p < e <= |s|
    requires forall k :: p <= k < e ==> s[k].score == s[p].score
    requires e < |s| ==> s[e].score != s[p].score
    ensures RunEnd(s, p) == e
    decreases e - p
  {
    if p + 1 < e {
      RunEndIs(s, p + 1, e);
    }
  }

  /** The tie groups from index i on, i being where a run starts. */
  function RunsFrom(s: seq<Entry>, i: nat): seq<(int, int)>
    requires i <= |s|
    decreases |s| - i
  {
    if i == |s| then []
    else
      var e := RunEnd(s, i);
      (if e - i >= 2 then [(i as int, e as int)] else []) + RunsFrom(s, e)
  }

  /** The half-open ranges [first, after) that `findTieGroups` reports. */
  function TieGroups(s: seq<Entry>): seq<(int, int)> {
    RunsFrom(s, 0)
  }

  /** [f, e) is a maximal run of two or more equal neighbouring scores. */
  predicate IsTieGroup(s: seq<Entry>, f: int, e: int) {
    && 0 <= f && f + 2 <= e <= |s|
    && (forall k :: f <= k < e ==> s[k].score == s[f].score)
    && (f == 0 || s[f - 1].score != s[f].score)
    && (e == |s| || s[e].score != s[f].score)
  }

  /** Ranges in ascending order, each non-empty, none overlapping the next. */
  predicate Disjoint(groups: seq<(int, int)>) {
    && (forall i :: 0 <= i < |groups| ==> groups[i].0 < groups[i].1)
    && (forall i, j :: 0 <= i < j < |groups| ==> groups[i].1 <= groups[j].0)
  }

  predicate RunStart(s: seq<Entry>, i: nat)
    requires i <= |s|
  {
    i == 0 || i == |s| || s[i - 1].score != s[i].score
  }

  lemma {:induction false} RunsFromExact(s: seq<Entry>, i: nat)
    requires i <= |s| && RunStart(s, i)
    ensures forall g: (int, int) :: g in RunsFrom(s, i) <==> IsTieGroup(s, g.0, g.1) && i <= g.0
    ensures Disjoint(RunsFrom(s, i))
    ensures forall g: (int, int) :: g in RunsFrom(s, i) ==> i <= g.0
    decreases |s| - i
  {
    if i < |s| {
      var e := RunEnd(s, i);
      RunsFromExact(s, e);
      var head: seq<(int, int)> := if e - i >= 2 then [(i as int, e as int)] else [];
      var rest := RunsFrom(s, e);
      assert RunsFrom(s, i) == head + rest;
      forall g: (int, int) | IsTieGroup(s, g.0, g.1) && i <= g.0 ensures g in RunsFrom(s, i) {
        if g.0 == i {
          RunEndIs(s, i, g.1);
          assert g == (i as int, e as int);
        } else {
          if g.0 < e { assert false; }
          assert g in rest;
        }
      }
      forall g: (int, int) | g in head ensures IsTieGroup(s, g.0, g.1) && i <= g.0 { }
    }
  }

  /** `findTieGroups` reports exactly the maximal runs of two or more equal
      adjacent scores, in ascending order and without overlap. */
  lemma TieGroupsExact(s: seq<Entry>)
    ensures forall g: (int, int) :: g in TieGroups(s) <==> IsTieGroup(s, g.0, g.1)
    ensures Disjoint(TieGroups(s))
  {
    RunsFromExact(s, 0);
  }

  lemma {:induction false} NoRunsFrom(s: seq<Entry>, i: nat)
    requires i <= |s|
    requires forall p :: 0 < p < |s| ==> s[p - 1].score != s[p].score
    ensures RunsFrom(s, i) == []
    decreases |s| - i
  {
    if i < |s| {
      RunEndIs(s, i, i + 1);
      NoRunsFrom(s, i + 1);
    }
  }

  /** Some tie group from index i on holds both p - 1 and p. */
  predicate Covered(groups: seq<(int, int)>, p: int) {
    exists j :: 0 <= j < |groups| && groups[j].0 <= p - 1 && p < groups[j].1
  }

  lemma {:induction false} RunsCover(s: seq<Entry>, i: nat, p: nat)
    requires i < p < |s| && RunStart(s, i) && s[p - 1].score == s[p].score
    ensures Covered(RunsFrom(s, i), p)
    decreases |s| - i
  {
    var e := RunEnd(s, i);
    var head: seq<(int, int)> := if e - i >= 2 then [(i as int, e as int)] else [];
    var rest := RunsFrom(s, e);
    assert RunsFrom(s, i) == head + rest;
    if p < e {
      assert RunsFrom(s, i)[0] == (i as int, e as int);
    } else {
      assert s[e - 1].score == s[i].score;
      RunsCover(s, e, p);
      var j :| 0 <= j < |rest| && rest[j].0 <= p - 1 && p < rest[j].1;
      assert RunsFrom(s, i)[|head| + j] == rest[j];
    }
  }

  /** Two equal neighbours lie in one reported group, and there is no
      group at all exactly when no two neighbours share a score. */
  lemma TieGroupsCover(s: seq<Entry>)
    ensures forall p :: 0 < p < |s| && s[p - 1].score == s[p].score ==> Covered(TieGroups(s), p)
    ensures TieGroups(s) == [] <==> forall p :: 0 < p < |s| ==> s[p - 1].score != s[p].score
  {
    forall p | 0 < p < |s| && s[p - 1].score == s[p].score
      ensures Covered(TieGroups(s), p)
    {
      RunsCover(s, 0, p);
    }
    if forall p :: 0 < p < |s| ==> s[p - 1].score != s[p].score {
      NoRunsFrom(s, 0);
    }
  }

  /** `findTieGroups`; the scores must be non-negative, as -1 is the start
      value of its scan. */
  method FindTieGroups(results: seq<Entry>) returns (groups: seq<(int, int)>)
    requires forall k :: 0 <= k < |results| ==> results[k].score >= 0
    ensures groups == TieGroups(results)
    ensures forall g: (int, int) :: g in groups <==> IsTieGroup(results, g.0, g.1)
    ensures Disjoint(groups)
  {
    groups := [];
    var prevScore := -1;
    var prevIdx := -1;
    var i := 0;
    while i < |results|
      invariant 0 <= i <= |results|
      invariant i == 0 ==> prevIdx == -1 && prevScore == -1 && groups == []
      invariant i > 0 ==> 0 <= prevIdx < i && prevScore == results[prevIdx].score
      invariant i > 0 ==> RunStart(results, prevIdx)
      invariant i > 0 ==> forall k :: prevIdx <= k < i ==> results[k].score == prevScore
      invariant i > 0 ==> groups + RunsFrom(results, prevIdx) == TieGroups(results)
    {
      if results[i].score != prevScore {
        if i > prevIdx + 1 {
          groups := groups + [(prevIdx, i)];
        }
        if i > 0 {
          RunEndIs(results, prevIdx, i);
          assert RunsFrom(results, prevIdx) == (if i - prevIdx >= 2 then [(prevIdx, i)] else []) + RunsFrom(results, i);
        }
        prevScore := results[i].score;
        prevIdx := i;
      }
      i := i + 1;
    }
    if prevIdx < |results| - 1 {
      groups := groups + [(prevIdx, |results|)];
    }
    if |results| > 0 {
      RunEndIs(results, prevIdx, |results|);
    }
    TieGroupsExact(results);
  }
}
