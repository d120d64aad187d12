/** `breakTies` (src/algorithm.ts): every tie group is ranked again with
    `compareAllSort`, and the sub-ranking is spliced back in place of the
    group, its scores offset from the entry before it and everything after
    it shifted by one common delta. */
module TieBreaking {
  import opened Common
  import opened Scores
  import opened Ranking

  /** Every range lies inside a list of length n and is non-empty. */
  predicate Fits(groups: seq<(int, int)>, n: nat) {
    forall i :: 0 <= i < |groups| ==> 0 <= groups[i].0 < groups[i].1 <= n
  }

  /** The score a group's sub-ranking is offset by: one more than the entry
      before it, or nothing at the front. */
  function Base(res: seq<Entry>, f: int): int
    requires 0 <= f <= |res|
  {
    if f <= 0 then 0 else res[f - 1].score + 1
  }

  /** The list after one group [f, a) has been replaced by its sub-ranking
      `sub`, and the entries after the group shifted so that the first of
      them is one above the group's last score. */
  function Splice(res: seq<Entry>, f: int, a: int, sub: seq<Entry>): (r: seq<Entry>)
    requires 0 <= f < a <= |res| && |sub| == a - f
    ensures |r| == |res|
  {
    var base := Base(res, f);
    var mid := seq(a - f, k requires 0 <= k < a - f => Entry(sub[k].item, sub[k].score + base));
    var tail :=
      if a < |res| then
        var delta := mid[a - f - 1].score + 1 - res[a].score;
        seq(|res| - a, k requires 0 <= k < |res| - a => Entry(res[a + k].item, res[a + k].score + delta))
      else [];
    res[..f] + mid + tail
  }

  /** What one splice does: the front is untouched, the group holds the
      sub-ranking offset by `Base`, the next entry is one above the group's
      last, and after the group names and score differences are kept. */
  lemma SpliceFacts(res: seq<Entry>, f: int, a: int, sub: seq<Entry>)
    requires 0 <= f < a <= |res| && |sub| == a - f
    ensures forall p :: 0 <= p < f ==> Splice(res, f, a, sub)[p] == res[p]
    ensures forall k :: 0 <= k < a - f ==>
              Splice(res, f, a, sub)[f + k] == Entry(sub[k].item, sub[k].score + Base(res, f))
    ensures a < |res| ==> Splice(res, f, a, sub)[a].score == Splice(res, f, a, sub)[a - 1].score + 1
    ensures forall p :: a <= p < |res| ==> Splice(res, f, a, sub)[p].item == res[p].item
    ensures forall p :: a < p < |res| ==>
              Splice(res, f, a, sub)[p].score - Splice(res, f, a, sub)[p - 1].score == res[p].score - res[p - 1].score
  {
  }

  /** The front and the group part of `SpliceFacts`. */
  lemma SpliceGroup(res: seq<Entry>, f: int, a: int, sub: seq<Entry>)
    requires 0 <= f < a <= |res| && |sub| == a - f
    ensures forall p :: 0 <= p < f ==> Splice(res, f, a, sub)[p] == res[p]
    ensures forall k :: 0 <= k < a - f ==>
              Splice(res, f, a, sub)[f + k] == Entry(sub[k].item, sub[k].score + Base(res, f))
  {
    SpliceFacts(res, f, a, sub);
  }

  /** The parts of `SpliceFacts` outside the group: the front is kept, and
      after the group so are the score differences. */
  lemma SpliceOutside(res: seq<Entry>, f: int, a: int, sub: seq<Entry>)
    requires 0 <= f < a <= |res| && |sub| == a - f
    ensures forall p :: 0 <= p < f ==> Splice(res, f, a, sub)[p] == res[p]
    ensures forall p :: a < p < |res| ==>
              Splice(res, f, a, sub)[p].score - Splice(res, f, a, sub)[p - 1].score == res[p].score - res[p - 1].score
  {
    SpliceFacts(res, f, a, sub);
  }

  /** How a group's names are ranked again, and the calls that takes. */
  type Ranker = seq<string> -> Result<seq<Entry>>
  type Asker = seq<string> -> seq<(string, string)>

  /** `compareAllSort` with a given comparator, as a ranker. */
  function Ranked(cmp: Comparator): Ranker {
    names => CompareAll(names, cmp)
  }

  function CallsOf(cmp: Comparator): Asker {
    names => CompareAllCalls(names, cmp)
  }

  /** A ranking of `names` holds as many entries as it was given names. */
  ghost predicate SizedFor(rank: Ranker, names: seq<string>) {
    rank(names).Ok? ==> |rank(names).value| == |names|
  }

  ghost predicate Sized(rank: Ranker) {
    forall names :: SizedFor(rank, names)
  }

  /** A ranking of `names` holds those names, each once, with normalized
      scores. */
  ghost predicate RanksFor(rank: Ranker, names: seq<string>) {
    rank(names).Ok? ==>
      multiset(Names(rank(names).value)) == multiset(names) &&
      Dense(rank(names).value)
  }

  ghost predicate Ranks(rank: Ranker) {
    Sized(rank) && forall names :: RanksFor(rank, names)
  }

  /** A successful ranking of k names makes C(k, 2) calls. */
  ghost predicate CountedFor(rank: Ranker, asks: Asker, names: seq<string>) {
    rank(names).Ok? ==> |asks(names)| == CompareAllComparisons(|names|)
  }

  ghost predicate Counted(rank: Ranker, asks: Asker) {
    forall names :: CountedFor(rank, asks, names)
  }

  /** `compareAllSort` is a ranker of that kind. */
  lemma CompareAllRanks(cmp: Comparator)
    ensures Sized(Ranked(cmp)) && Ranks(Ranked(cmp)) && Counted(Ranked(cmp), CallsOf(cmp))
  {
    forall names | Ranked(cmp)(names).Ok?
      ensures |Ranked(cmp)(names).value| == |names|
      ensures multiset(Names(Ranked(cmp)(names).value)) == multiset(names)
      ensures Dense(Ranked(cmp)(names).value)
      ensures |CallsOf(cmp)(names)| == CompareAllComparisons(|names|)
    {
      CompareAllRanking(names, cmp);
      CompareAllAsksEveryPair(names, cmp);
      CompareAllComparisonsClosedForm(|names|);
      IndexPairsFacts(|names|);
    }
  }

  /** The sub-ranking of group g: the names in it, ranked again. */
  function Sub(res: seq<Entry>, g: (int, int), rank: Ranker): (r: Result<seq<Entry>>)
    requires 0 <= g.0 <= g.1 <= |res|
    ensures Sized(rank) && r.Ok? ==> |r.value| == g.1 - g.0
    ensures Ranks(rank) && r.Ok? ==>
              multiset(Names(r.value)) == multiset(Names(res[g.0..g.1])) && Dense(r.value)
  {
    assert Sized(rank) ==> SizedFor(rank, Names(res[g.0..g.1]));
    assert Ranks(rank) ==> RanksFor(rank, Names(res[g.0..g.1]));
    rank(Names(res[g.0..g.1]))
  }

  /** The groups handled one after the other, in ascending order. */
  function Resolve(res: seq<Entry>, groups: seq<(int, int)>, rank: Ranker): (r: Result<seq<Entry>>)
    requires Fits(groups, |res|) && Sized(rank)
    ensures r.Ok? ==> |r.value| == |res|
    decreases |groups|
  {
    if groups == [] then Ok(res)
    else
      match Sub(res, groups[0], rank)
      case Err(e) => Err(e)
      case Ok(sub) => Resolve(Splice(res, groups[0].0, groups[0].1, sub), groups[1..], rank)
  }

  /** The comparator calls made while handling the groups. Every group is
      ranked, whether or not an earlier one failed, as every promise given
      to `Promise.all` runs to its end; a failed group splices nothing. */
  function ResolveCalls(res: seq<Entry>, groups: seq<(int, int)>, rank: Ranker, asks: Asker): seq<(string, string)>
    requires Fits(groups, |res|) && Sized(rank)
    decreases |groups|
  {
    if groups == [] then []
    else
      var g := groups[0];
      asks(Names(res[g.0..g.1])) +
      match Sub(res, g, rank)
      case Err(_) => ResolveCalls(res, groups[1..], rank, asks)
      case Ok(sub) => ResolveCalls(Splice(res, g.0, g.1, sub), groups[1..], rank, asks)
  }

  /** The calls of ranking the names of every group of `res`, group after
      group: the slices are all taken from the list as it was given. */
  function GroupCalls(res: seq<Entry>, groups: seq<(int, int)>, asks: Asker): seq<(string, string)>
    requires forall i :: 0 <= i < |groups| ==> 0 <= groups[i].0 <= groups[i].1 <= |res|
    decreases |groups|
  {
    if groups == [] then []
    else asks(Names(res[groups[0].0..groups[0].1])) + GroupCalls(res, groups[1..], asks)
  }

  lemma TieGroupsFit(s: seq<Entry>)
    ensures Fits(TieGroups(s), |s|) && Disjoint(TieGroups(s))
  {
    TieGroupsExact(s);
    forall i | 0 <= i < |TieGroups(s)| ensures 0 <= TieGroups(s)[i].0 < TieGroups(s)[i].1 <= |s| {
      assert TieGroups(s)[i] in TieGroups(s);
    }
  }

  /** What `breakTies(results, comparator)` resolves to. */
  function BreakTiesResult(results: seq<Entry>, cmp: Comparator): (r: Result<seq<Entry>>)
    ensures !Distinct(Names(results)) ==> r == Err(DuplicateItems)
    ensures r.Ok? ==> |r.value| == |results|
  {
    SetSizeDetectsDuplicates(Names(results));
    if |ToSet(Names(results))| != |results| then Err(DuplicateItems)
    else
      TieGroupsFit(results);
      CompareAllRanks(cmp);
      Resolve(results, TieGroups(results), Ranked(cmp))
  }

  /** The comparator calls `breakTies(results, comparator)` makes. */
  function BreakTiesCalls(results: seq<Entry>, cmp: Comparator): (calls: seq<(string, string)>)
    ensures !Distinct(Names(results)) ==> calls == []
  {
    SetSizeDetectsDuplicates(Names(results));
    if |ToSet(Names(results))| != |results| then []
    else
      TieGroupsFit(results);
      CompareAllRanks(cmp);
      ResolveCalls(results, TieGroups(results), Ranked(cmp), CallsOf(cmp))
  }

  /** Handling the first group, `next` being the list after it: the group's
      calls come first, then the remaining groups are handled on `next`,
      which is the spliced list when the group was ranked and the list
      unchanged when it failed. A failure is the result, whatever follows. */
  lemma ResolveStep(res: seq<Entry>, next: seq<Entry>, groups: seq<(int, int)>, rank: Ranker, asks: Asker)
    requires Fits(groups, |res|) && Sized(rank) && groups != []
    requires Sub(res, groups[0], rank).Err? ==> next == res
    requires Sub(res, groups[0], rank).Ok? ==>
               next == Splice(res, groups[0].0, groups[0].1, Sub(res, groups[0], rank).value)
    ensures Fits(groups[1..], |next|)
    ensures ResolveCalls(res, groups, rank, asks) ==
              asks(Names(res[groups[0].0..groups[0].1])) + ResolveCalls(next, groups[1..], rank, asks)
    ensures Sub(res, groups[0], rank).Err? ==> Resolve(res, groups, rank) == Err(Sub(res, groups[0], rank).error)
    ensures Sub(res, groups[0], rank).Ok? ==> Resolve(res, groups, rank) == Resolve(next, groups[1..], rank)
  {
  }

  /** Position p lies inside one of the groups. */
  predicate InGroup(groups: seq<(int, int)>, p: int) {
    exists i :: 0 <= i < |groups| && groups[i].0 <= p < groups[i].1
  }

  lemma DisjointTail(groups: seq<(int, int)>)
    requires Disjoint(groups) && groups != []
    ensures Disjoint(groups[1..])
    ensures forall j :: 1 <= j < |groups| ==> groups[0].1 <= groups[j].0
  {
    assert forall j :: 0 <= j < |groups| - 1 ==> groups[1..][j] == groups[j + 1];
  }

  lemma InGroupTail(groups: seq<(int, int)>, p: int)
    requires groups != []
    ensures InGroup(groups, p) <==> (groups[0].0 <= p < groups[0].1 || InGroup(groups[1..], p))
  {
    if InGroup(groups[1..], p) {
      var i :| 0 <= i < |groups[1..]| && groups[1..][i].0 <= p < groups[1..][i].1;
      assert groups[i + 1] == groups[1..][i];
    }
    if InGroup(groups, p) && !(groups[0].0 <= p < groups[0].1) {
      var i :| 0 <= i < |groups| && groups[i].0 <= p < groups[i].1;
      assert groups[1..][i - 1] == groups[i];
    }
  }

  /** Splicing one group leaves the names of the later groups, and with them
      their sub-rankings, as they were. */
  lemma SpliceKeepsLater(res: seq<Entry>, groups: seq<(int, int)>, sub: seq<Entry>, rank: Ranker)
    requires Fits(groups, |res|) && Sized(rank) && Disjoint(groups) && groups != []
    requires |sub| == groups[0].1 - groups[0].0
    ensures Fits(groups[1..], |res|) && Disjoint(groups[1..])
    ensures forall j :: 1 <= j < |groups| ==>
              Sub(Splice(res, groups[0].0, groups[0].1, sub), groups[j], rank) == Sub(res, groups[j], rank)
    ensures forall j :: 1 <= j < |groups| ==>
              Names(Splice(res, groups[0].0, groups[0].1, sub)[groups[j].0..groups[j].1]) ==
              Names(res[groups[j].0..groups[j].1])
  {
    DisjointTail(groups);
    var next := Splice(res, groups[0].0, groups[0].1, sub);
    SpliceFacts(res, groups[0].0, groups[0].1, sub);
    forall j | 1 <= j < |groups|
      ensures Names(next[groups[j].0..groups[j].1]) == Names(res[groups[j].0..groups[j].1])
      ensures Sub(next, groups[j], rank) == Sub(res, groups[j], rank)
    {
      var g := groups[j];
      assert Names(next[g.0..g.1]) == Names(res[g.0..g.1]);
    }
  }

  /** Two lists whose groups hold the same names make the same group calls. */
  lemma {:induction false} GroupCallsSameNames(res: seq<Entry>, other: seq<Entry>, groups: seq<(int, int)>, asks: Asker)
    requires Fits(groups, |res|) && |other| == |res|
    requires forall j :: 0 <= j < |groups| ==> Names(other[groups[j].0..groups[j].1]) == Names(res[groups[j].0..groups[j].1])
    ensures GroupCalls(other, groups, asks) == GroupCalls(res, groups, asks)
    decreases |groups|
  {
    if groups != [] {
      assert forall j :: 0 <= j < |groups| - 1 ==> groups[1..][j] == groups[j + 1];
      GroupCallsSameNames(res, other, groups[1..], asks);
    }
  }

  /** Every group's names are ranked, each taken from the list as given,
      whichever groups fail: the calls are those of all the groups. */
  lemma {:induction false} ResolveCallsAllGroups(res: seq<Entry>, groups: seq<(int, int)>, rank: Ranker, asks: Asker)
    requires Fits(groups, |res|) && Sized(rank) && Disjoint(groups)
    ensures ResolveCalls(res, groups, rank, asks) == GroupCalls(res, groups, asks)
    decreases |groups|
  {
    if groups != [] {
      DisjointTail(groups);
      match Sub(res, groups[0], rank)
      case Err(_) =>
        ResolveCallsAllGroups(res, groups[1..], rank, asks);
      case Ok(sub) =>
        var next := Splice(res, groups[0].0, groups[0].1, sub);
        SpliceKeepsLater(res, groups, sub, rank);
        ResolveCallsAllGroups(next, groups[1..], rank, asks);
        assert forall j :: 0 <= j < |groups| - 1 ==> groups[1..][j] == groups[j + 1];
        GroupCallsSameNames(res, next, groups[1..], asks);
    }
  }

  /** `breakTies` succeeds exactly when every group's sub-ranking does; when
      it fails, it fails with the error of the first group that failed. */
  lemma ResolveOutcome(res: seq<Entry>, groups: seq<(int, int)>, rank: Ranker)
    requires Fits(groups, |res|) && Sized(rank) && Disjoint(groups)
    ensures Resolve(res, groups, rank).Ok? <==> forall i :: 0 <= i < |groups| ==> Sub(res, groups[i], rank).Ok?
    ensures Resolve(res, groups, rank).Err? ==>
              exists i :: 0 <= i < |groups| && Sub(res, groups[i], rank) == Resolve(res, groups, rank) &&
                forall j :: 0 <= j < i ==> Sub(res, groups[j], rank).Ok?
  {
    ResolveSucceeds(res, groups, rank);
    ResolveFails(res, groups, rank);
  }

  lemma {:induction false} ResolveSucceeds(res: seq<Entry>, groups: seq<(int, int)>, rank: Ranker)
    requires Fits(groups, |res|) && Sized(rank) && Disjoint(groups)
    ensures Resolve(res, groups, rank).Ok? <==> forall i :: 0 <= i < |groups| ==> Sub(res, groups[i], rank).Ok?
    decreases |groups|
  {
    if groups != [] {
      match Sub(res, groups[0], rank)
      case Err(e) =>
      case Ok(sub) =>
        var next := Splice(res, groups[0].0, groups[0].1, sub);
        ResolveNext(res, groups, rank, sub);
        SpliceKeepsLater(res, groups, sub, rank);
        ResolveSucceeds(next, groups[1..], rank);
        assert forall j :: 0 <= j < |groups| - 1 ==> groups[1..][j] == groups[j + 1];
    }
  }

  lemma {:induction false} ResolveFails(res: seq<Entry>, groups: seq<(int, int)>, rank: Ranker)
    requires Fits(groups, |res|) && Sized(rank) && Disjoint(groups)
    ensures Resolve(res, groups, rank).Err? ==>
              exists i :: 0 <= i < |groups| && Sub(res, groups[i], rank) == Resolve(res, groups, rank) &&
                forall j :: 0 <= j < i ==> Sub(res, groups[j], rank).Ok?
    decreases |groups|
  {
    if groups != [] {
      match Sub(res, groups[0], rank)
      case Err(e) =>
      case Ok(sub) =>
        var next := Splice(res, groups[0].0, groups[0].1, sub);
        ResolveNext(res, groups, rank, sub);
        SpliceKeepsLater(res, groups, sub, rank);
        ResolveFails(next, groups[1..], rank);
        if Resolve(res, groups, rank).Err? {
          var i :| 0 <= i < |groups[1..]| && Sub(next, groups[1..][i], rank) == Resolve(next, groups[1..], rank) &&
                   forall j :: 0 <= j < i ==> Sub(next, groups[1..][j], rank).Ok?;
          FailsLater(res, groups, rank, sub, i);
        }
    }
  }

  /** A failure in group i of the rest is a failure in group i + 1 after the
      first group's success. */
  lemma FailsLater(res: seq<Entry>, groups: seq<(int, int)>, rank: Ranker, sub: seq<Entry>, i: nat)
    requires Fits(groups, |res|) && Sized(rank) && Disjoint(groups) && groups != []
    requires Sub(res, groups[0], rank) == Ok(sub) && i < |groups| - 1
    requires forall j :: 1 <= j < |groups| ==>
               Sub(Splice(res, groups[0].0, groups[0].1, sub), groups[j], rank) == Sub(res, groups[j], rank)
    ensures Fits(groups[1..], |res|)
    requires Sub(Splice(res, groups[0].0, groups[0].1, sub), groups[1..][i], rank)
               == Resolve(Splice(res, groups[0].0, groups[0].1, sub), groups[1..], rank)
    requires forall j :: 0 <= j < i ==> Sub(Splice(res, groups[0].0, groups[0].1, sub), groups[1..][j], rank).Ok?
    ensures Resolve(res, groups, rank) == Resolve(Splice(res, groups[0].0, groups[0].1, sub), groups[1..], rank)
    ensures Sub(res, groups[i + 1], rank) == Resolve(res, groups, rank)
    ensures forall j :: 0 <= j < i + 1 ==> Sub(res, groups[j], rank).Ok?
  {
    var next := Splice(res, groups[0].0, groups[0].1, sub);
    ResolveNext(res, groups, rank, sub);
    assert groups[1..][i] == groups[i + 1];
    forall j | 0 <= j < i + 1 ensures Sub(res, groups[j], rank).Ok? {
      if j > 0 { assert groups[1..][j - 1] == groups[j] && Sub(next, groups[1..][j - 1], rank).Ok?; }
    }
  }

  /** Entries before the first group come out as they went in. */
  lemma {:induction false} ResolveKeepsFront(res: seq<Entry>, groups: seq<(int, int)>, rank: Ranker)
    requires Fits(groups, |res|) && Sized(rank) && Disjoint(groups) && Resolve(res, groups, rank).Ok?
    ensures forall p :: 0 <= p < |res| && (groups == [] || p < groups[0].0) ==>
              Resolve(res, groups, rank).value[p] == res[p]
    decreases |groups|
  {
    if groups != [] {
      var sub := Sub(res, groups[0], rank).value;
      var next := Splice(res, groups[0].0, groups[0].1, sub);
      SpliceFacts(res, groups[0].0, groups[0].1, sub);
      SpliceKeepsLater(res, groups, sub, rank);
      ResolveKeepsFront(next, groups[1..], rank);
    }
  }

  /** Entries outside every group keep their name. */
  lemma {:induction false} ResolveKeepsNames(res: seq<Entry>, groups: seq<(int, int)>, rank: Ranker)
    requires Fits(groups, |res|) && Sized(rank) && Disjoint(groups) && Resolve(res, groups, rank).Ok?
    ensures forall p :: 0 <= p < |res| && !InGroup(groups, p) ==>
              Resolve(res, groups, rank).value[p].item == res[p].item
    decreases |groups|
  {
    if groups != [] {
      var sub := Sub(res, groups[0], rank).value;
      var next := Splice(res, groups[0].0, groups[0].1, sub);
      SpliceFacts(res, groups[0].0, groups[0].1, sub);
      SpliceKeepsLater(res, groups, sub, rank);
      ResolveKeepsNames(next, groups[1..], rank);
      forall p | 0 <= p < |res| && !InGroup(groups, p)
        ensures Resolve(res, groups, rank).value[p].item == res[p].item
      {
        InGroupTail(groups, p);
      }
    }
  }

  /** The first group holds its sub-ranking once all groups are handled. */
  lemma FirstGroupFilled(res: seq<Entry>, groups: seq<(int, int)>, rank: Ranker, sub: seq<Entry>)
    requires Fits(groups, |res|) && Sized(rank) && Disjoint(groups) && groups != []
    requires Sub(res, groups[0], rank) == Ok(sub) && Resolve(res, groups, rank).Ok?
    ensures forall k :: 0 <= k < groups[0].1 - groups[0].0 ==>
              Resolve(res, groups, rank).value[groups[0].0 + k] ==
                Entry(sub[k].item, sub[k].score + Base(Resolve(res, groups, rank).value, groups[0].0))
  {
    var f, a := groups[0].0, groups[0].1;
    var next := Splice(res, f, a, sub);
    ResolveNext(res, groups, rank, sub);
    DisjointTail(groups);
    ResolveKeepsFront(next, groups[1..], rank);
    SpliceGroup(res, f, a, sub);
    assert |groups| > 1 ==> a <= groups[1..][0].0;
    FrontKept(Resolve(next, groups[1..], rank).value, next, res, f, a, sub);
  }

  /** What a splice put up to the end of its group, and left in place
      there, still sits on the same base. */
  lemma FrontKept(out: seq<Entry>, next: seq<Entry>, res: seq<Entry>, f: int, a: int, sub: seq<Entry>)
    requires 0 <= f < a <= |res| && |next| == |res| == |out| && |sub| == a - f
    requires forall p :: 0 <= p < a ==> out[p] == next[p]
    requires forall p :: 0 <= p < f ==> next[p] == res[p]
    requires forall k :: 0 <= k < a - f ==> next[f + k] == Entry(sub[k].item, sub[k].score + Base(res, f))
    ensures forall k :: 0 <= k < a - f ==> out[f + k] == Entry(sub[k].item, sub[k].score + Base(out, f))
  {
    assert Base(out, f) == Base(res, f);
  }

  /** Group g of `out` holds the ranking `sub`, each score raised by `Base`. */
  predicate Filled(out: seq<Entry>, sub: Result<seq<Entry>>, g: (int, int)) {
    sub.Ok? && |sub.value| == g.1 - g.0 && 0 <= g.0 <= g.1 <= |out| ==>
      forall k :: 0 <= k < g.1 - g.0 ==>
        out[g.0 + k] == Entry(sub.value[k].item, sub.value[k].score + Base(out, g.0))
  }

  lemma FilledFromTail(out: seq<Entry>, res: seq<Entry>, next: seq<Entry>, groups: seq<(int, int)>, rank: Ranker)
    requires groups != [] && Fits(groups, |res|) && |next| == |res|
    requires Filled(out, Sub(res, groups[0], rank), groups[0])
    requires forall j :: 1 <= j < |groups| ==> Sub(next, groups[j], rank) == Sub(res, groups[j], rank)
    requires forall i :: 0 <= i < |groups[1..]| ==> Filled(out, Sub(next, groups[1..][i], rank), groups[1..][i])
    ensures forall i :: 0 <= i < |groups| ==> Filled(out, Sub(res, groups[i], rank), groups[i])
  {
    forall i | 0 < i < |groups| ensures Filled(out, Sub(res, groups[i], rank), groups[i]) {
      assert groups[1..][i - 1] == groups[i];
    }
  }

  /** Every group holds its sub-ranking, in order, each score raised by one
      more than the score of the entry before the group (by nothing at the
      front). */
  lemma {:induction false} ResolveFillsGroups(res: seq<Entry>, groups: seq<(int, int)>, rank: Ranker)
    requires Fits(groups, |res|) && Sized(rank) && Disjoint(groups) && Resolve(res, groups, rank).Ok?
    ensures forall i :: 0 <= i < |groups| ==>
              Filled(Resolve(res, groups, rank).value, Sub(res, groups[i], rank), groups[i])
    decreases |groups|
  {
    if groups != [] {
      var sub := Sub(res, groups[0], rank).value;
      ResolveNext(res, groups, rank, sub);
      var next := Splice(res, groups[0].0, groups[0].1, sub);
      FirstGroupFilled(res, groups, rank, sub);
      SpliceKeepsLater(res, groups, sub, rank);
      ResolveFillsGroups(next, groups[1..], rank);
      FilledFromTail(Resolve(res, groups, rank).value, res, next, groups, rank);
    }
  }

  /** After the first group, the score is one above the group's last one. */
  lemma StepAfterFirstGroup(res: seq<Entry>, groups: seq<(int, int)>, rank: Ranker, sub: seq<Entry>)
    requires Fits(groups, |res|) && Ranks(rank) && Disjoint(groups) && groups != [] && groups[0].1 < |res|
    requires Sub(res, groups[0], rank) == Ok(sub) && Resolve(res, groups, rank).Ok?
    ensures Resolve(res, groups, rank).value[groups[0].1].score == Resolve(res, groups, rank).value[groups[0].1 - 1].score + 1
  {
    if |groups| > 1 && groups[1].0 == groups[0].1 {
      StepIntoSecondGroup(res, groups, rank, sub);
    } else {
      StepBeforeSecondGroup(res, groups, rank, sub);
    }
  }

  /** The second group starts right after the first, one above it. */
  lemma StepIntoSecondGroup(res: seq<Entry>, groups: seq<(int, int)>, rank: Ranker, sub: seq<Entry>)
    requires Fits(groups, |res|) && Ranks(rank) && Disjoint(groups) && |groups| > 1 && groups[1].0 == groups[0].1
    requires Sub(res, groups[0], rank) == Ok(sub) && Resolve(res, groups, rank).Ok?
    ensures Resolve(res, groups, rank).value[groups[0].1].score == Resolve(res, groups, rank).value[groups[0].1 - 1].score + 1
  {
    var next := Splice(res, groups[0].0, groups[0].1, sub);
    ResolveNext(res, groups, rank, sub);
    SpliceKeepsLater(res, groups, sub, rank);
    var rest := groups[1..];
    assert rest[0] == groups[1];
    StepIntoGroup(next, rest, rank);
  }

  /** When no group follows right away, the splice's own step survives the
      later groups. */
  lemma StepBeforeSecondGroup(res: seq<Entry>, groups: seq<(int, int)>, rank: Ranker, sub: seq<Entry>)
    requires Fits(groups, |res|) && Sized(rank) && Disjoint(groups) && groups != [] && groups[0].1 < |res|
    requires |groups| > 1 ==> groups[1].0 != groups[0].1
    requires Sub(res, groups[0], rank) == Ok(sub) && Resolve(res, groups, rank).Ok?
    ensures Resolve(res, groups, rank).value[groups[0].1].score == Resolve(res, groups, rank).value[groups[0].1 - 1].score + 1
  {
    var a := groups[0].1;
    var next := Splice(res, groups[0].0, a, sub);
    ResolveNext(res, groups, rank, sub);
    SpliceKeepsLater(res, groups, sub, rank);
    SpliceFacts(res, groups[0].0, a, sub);
    ResolveKeepsFront(next, groups[1..], rank);
    assert |groups| > 1 ==> groups[1..][0].0 > a;
  }

  /** A group that starts right after another entry starts one above it. */
  lemma StepIntoGroup(res: seq<Entry>, groups: seq<(int, int)>, rank: Ranker)
    requires Fits(groups, |res|) && Ranks(rank) && Disjoint(groups) && groups != [] && groups[0].0 > 0
    requires Resolve(res, groups, rank).Ok?
    ensures Resolve(res, groups, rank).value[groups[0].0].score == Resolve(res, groups, rank).value[groups[0].0 - 1].score + 1
  {
    var out := Resolve(res, groups, rank).value;
    ResolveOutcome(res, groups, rank);
    var sub := Sub(res, groups[0], rank).value;
    FirstGroupFilled(res, groups, rank, sub);
    assert out[groups[0].0] == Entry(sub[0].item, sub[0].score + Base(out, groups[0].0));
  }

  /** Right after group g the score is one above the group's last one. */
  predicate StepsUpAfter(out: seq<Entry>, g: (int, int)) {
    0 < g.1 < |out| ==> out[g.1].score == out[g.1 - 1].score + 1
  }

  lemma StepsUpFromTail(out: seq<Entry>, groups: seq<(int, int)>)
    requires groups != [] && StepsUpAfter(out, groups[0])
    requires forall i :: 0 <= i < |groups[1..]| ==> StepsUpAfter(out, groups[1..][i])
    ensures forall i :: 0 <= i < |groups| ==> StepsUpAfter(out, groups[i])
  {
    forall i | 0 < i < |groups| ensures StepsUpAfter(out, groups[i]) {
      assert groups[1..][i - 1] == groups[i];
    }
  }

  /** Handling the first group, then the others on the spliced list. */
  lemma ResolveNext(res: seq<Entry>, groups: seq<(int, int)>, rank: Ranker, sub: seq<Entry>)
    requires Fits(groups, |res|) && Sized(rank) && groups != [] && Sub(res, groups[0], rank) == Ok(sub)
    ensures |sub| == groups[0].1 - groups[0].0 && Fits(groups[1..], |res|)
    ensures Resolve(res, groups, rank) == Resolve(Splice(res, groups[0].0, groups[0].1, sub), groups[1..], rank)
  {
  }

  /** The calls of the first group come first, then those of the rest. */
  lemma CallsNext(res: seq<Entry>, groups: seq<(int, int)>, rank: Ranker, asks: Asker, sub: seq<Entry>)
    requires Fits(groups, |res|) && Sized(rank) && groups != [] && Sub(res, groups[0], rank) == Ok(sub)
    ensures |sub| == groups[0].1 - groups[0].0 && Fits(groups[1..], |res|)
    ensures ResolveCalls(res, groups, rank, asks) ==
              asks(Names(res[groups[0].0..groups[0].1])) +
              ResolveCalls(Splice(res, groups[0].0, groups[0].1, sub), groups[1..], rank, asks)
  {
  }

  /** Right after a group the score is one above the group's last one. */
  lemma {:induction false} ResolveStepsAfterGroups(res: seq<Entry>, groups: seq<(int, int)>, rank: Ranker)
    requires Fits(groups, |res|) && Ranks(rank) && Disjoint(groups) && Resolve(res, groups, rank).Ok?
    ensures forall i :: 0 <= i < |groups| ==> StepsUpAfter(Resolve(res, groups, rank).value, groups[i])
    decreases |groups|
  {
    if groups != [] {
      var sub := Sub(res, groups[0], rank).value;
      ResolveNext(res, groups, rank, sub);
      var next := Splice(res, groups[0].0, groups[0].1, sub);
      if groups[0].1 < |res| {
        StepAfterFirstGroup(res, groups, rank, sub);
      }
      SpliceKeepsLater(res, groups, sub, rank);
      ResolveStepsAfterGroups(next, groups[1..], rank);
      StepsUpFromTail(Resolve(res, groups, rank).value, groups);
    }
  }

  /** Where neither an entry nor the one before it is in a group, their
      score difference is kept. */
  lemma {:induction false} ResolveKeepsGaps(res: seq<Entry>, groups: seq<(int, int)>, rank: Ranker)
    requires Fits(groups, |res|) && Sized(rank) && Disjoint(groups) && Resolve(res, groups, rank).Ok?
    ensures forall p :: 0 < p < |res| && !InGroup(groups, p) && !InGroup(groups, p - 1) ==>
              Resolve(res, groups, rank).value[p].score - Resolve(res, groups, rank).value[p - 1].score ==
                res[p].score - res[p - 1].score
    decreases |groups|
  {
    if groups != [] {
      var sub := Sub(res, groups[0], rank).value;
      var next := Splice(res, groups[0].0, groups[0].1, sub);
      ResolveNext(res, groups, rank, sub);
      DisjointTail(groups);
      SpliceOutside(res, groups[0].0, groups[0].1, sub);
      ResolveKeepsGaps(next, groups[1..], rank);
      var out := Resolve(next, groups[1..], rank).value;
      forall p | 0 < p < |res| && !InGroup(groups, p) && !InGroup(groups, p - 1)
        ensures out[p].score - out[p - 1].score == res[p].score - res[p - 1].score
      {
        InGroupTail(groups, p);
        InGroupTail(groups, p - 1);
      }
    }
  }

  lemma SplicePieces(res: seq<Entry>, f: int, a: int, sub: seq<Entry>)
    requires 0 <= f < a <= |res| && |sub| == a - f
    ensures Names(Splice(res, f, a, sub)[..f]) == Names(res[..f])
    ensures Names(Splice(res, f, a, sub)[f..a]) == Names(sub)
    ensures Names(Splice(res, f, a, sub)[a..]) == Names(res[a..])
  {
    SpliceFacts(res, f, a, sub);
  }

  /** A splice replaces a group's names by the names of its sub-ranking. */
  lemma SpliceNames(res: seq<Entry>, f: int, a: int, sub: seq<Entry>)
    requires 0 <= f < a <= |res| && |sub| == a - f
    requires multiset(Names(sub)) == multiset(Names(res[f..a]))
    ensures multiset(Names(Splice(res, f, a, sub))) == multiset(Names(res))
  {
    var r := Splice(res, f, a, sub);
    SplicePieces(res, f, a, sub);
    assert r == r[..f] + r[f..a] + r[a..];
    assert res == res[..f] + res[f..a] + res[a..];
    NamesConcat3(r[..f], r[f..a], r[a..]);
    NamesConcat3(res[..f], res[f..a], res[a..]);
  }

  lemma NamesConcat3(a: seq<Entry>, b: seq<Entry>, c: seq<Entry>)
    ensures Names(a + b + c) == Names(a) + Names(b) + Names(c)
  {
  }

  /** The result holds the same names as the input, each once. */
  lemma {:induction false} ResolveKeepsNameSet(res: seq<Entry>, groups: seq<(int, int)>, rank: Ranker)
    requires Fits(groups, |res|) && Ranks(rank) && Disjoint(groups) && Resolve(res, groups, rank).Ok?
    ensures multiset(Names(Resolve(res, groups, rank).value)) == multiset(Names(res))
    decreases |groups|
  {
    if groups != [] {
      var f, a := groups[0].0, groups[0].1;
      var sub := Sub(res, groups[0], rank).value;
      var next := Splice(res, f, a, sub);
      ResolveNext(res, groups, rank, sub);
      SpliceKeepsLater(res, groups, sub, rank);
      SpliceNames(res, f, a, sub);
      ResolveKeepsNameSet(next, groups[1..], rank);
    }
  }

  /** The number of comparisons all the groups need: C(k, 2) for a group of k. */
  function GroupComparisons(groups: seq<(int, int)>): int
    decreases |groups|
  {
    if groups == [] then 0
    else CompareAllComparisons(groups[0].1 - groups[0].0) + GroupComparisons(groups[1..])
  }

  /** A successful `breakTies` makes C(k, 2) comparator calls for each
      group of k. */
  lemma {:induction false} ResolveCallCount(res: seq<Entry>, groups: seq<(int, int)>, rank: Ranker, asks: Asker)
    requires Fits(groups, |res|) && Sized(rank) && Counted(rank, asks)
    requires Disjoint(groups) && Resolve(res, groups, rank).Ok?
    ensures |ResolveCalls(res, groups, rank, asks)| == GroupComparisons(groups)
    decreases |groups|
  {
    if groups != [] {
      var next, here := CallCountStep(res, groups, rank, asks);
      ResolveCallCount(next, groups[1..], rank, asks);
    }
  }

  /** One group's share of the calls: C(k, 2) for the first group, then the
      calls on the list it leaves behind. */
  lemma CallCountStep(res: seq<Entry>, groups: seq<(int, int)>, rank: Ranker, asks: Asker)
      returns (next: seq<Entry>, here: int)
    requires Fits(groups, |res|) && Sized(rank) && Counted(rank, asks)
    requires Disjoint(groups) && Resolve(res, groups, rank).Ok? && groups != []
    ensures Fits(groups[1..], |next|) && Disjoint(groups[1..]) && Resolve(next, groups[1..], rank).Ok?
    ensures |ResolveCalls(res, groups, rank, asks)| == here + |ResolveCalls(next, groups[1..], rank, asks)|
    ensures GroupComparisons(groups) == here + GroupComparisons(groups[1..])
  {
    var names := Names(res[groups[0].0..groups[0].1]);
    var sub := Sub(res, groups[0], rank).value;
    next := Splice(res, groups[0].0, groups[0].1, sub);
    ResolveNext(res, groups, rank, sub);
    CallsNext(res, groups, rank, asks, sub);
    DisjointTail(groups);
    assert CountedFor(rank, asks, names);
    here := |asks(names)|;
  }

  // ----- what breakTies promises -----

  /** With distinct names, `breakTies` handles exactly the tie groups
      `findTieGroups` reports, each ranked by `compareAllSort`. */
  lemma BreakTiesUnfold(results: seq<Entry>, cmp: Comparator)
    requires Distinct(Names(results))
    ensures Fits(TieGroups(results), |results|) && Disjoint(TieGroups(results))
    ensures Sized(Ranked(cmp)) && Ranks(Ranked(cmp)) && Counted(Ranked(cmp), CallsOf(cmp))
    ensures BreakTiesResult(results, cmp) == Resolve(results, TieGroups(results), Ranked(cmp))
    ensures BreakTiesCalls(results, cmp) == ResolveCalls(results, TieGroups(results), Ranked(cmp), CallsOf(cmp))
  {
    TieGroupsFit(results);
    CompareAllRanks(cmp);
    BreakTiesResultUnfold(results, cmp);
    BreakTiesCallsUnfold(results, cmp);
  }

  lemma BreakTiesResultUnfold(results: seq<Entry>, cmp: Comparator)
    requires Distinct(Names(results)) && Fits(TieGroups(results), |results|) && Sized(Ranked(cmp))
    ensures BreakTiesResult(results, cmp) == Resolve(results, TieGroups(results), Ranked(cmp))
  {
    SetSizeDetectsDuplicates(Names(results));
  }

  lemma BreakTiesCallsUnfold(results: seq<Entry>, cmp: Comparator)
    requires Distinct(Names(results)) && Fits(TieGroups(results), |results|) && Sized(Ranked(cmp))
    ensures BreakTiesCalls(results, cmp) == ResolveCalls(results, TieGroups(results), Ranked(cmp), CallsOf(cmp))
  {
    SetSizeDetectsDuplicates(Names(results));
  }

  /** `breakTies` hands the names of every tie group of its input to
      `compareAllSort`, group after group, even when one of them fails. */
  lemma BreakTiesAsksEveryGroup(results: seq<Entry>, cmp: Comparator)
    requires Distinct(Names(results))
    ensures Fits(TieGroups(results), |results|)
    ensures BreakTiesCalls(results, cmp) == GroupCalls(results, TieGroups(results), CallsOf(cmp))
  {
    TieGroupsFit(results);
    CompareAllRanks(cmp);
    BreakTiesCallsUnfold(results, cmp);
    ResolveCallsAllGroups(results, TieGroups(results), Ranked(cmp), CallsOf(cmp));
  }

  /** Without any tie group, `breakTies` returns its input and asks nothing. */
  lemma BreakTiesWithoutTies(results: seq<Entry>, cmp: Comparator)
    requires Distinct(Names(results))
    requires forall p :: 0 < p < |results| ==> results[p - 1].score != results[p].score
    ensures BreakTiesResult(results, cmp) == Ok(results)
    ensures BreakTiesCalls(results, cmp) == []
  {
    BreakTiesUnfold(results, cmp);
    TieGroupsCover(results);
  }

  /** `breakTies` succeeds exactly when the sub-ranking of every tie group
      does, and otherwise fails with the error of the first group (in
      ascending order) whose sub-ranking failed. */
  lemma BreakTiesOutcome(results: seq<Entry>, cmp: Comparator)
    requires Distinct(Names(results))
    ensures Fits(TieGroups(results), |results|)
    ensures BreakTiesResult(results, cmp).Ok? <==>
              forall i :: 0 <= i < |TieGroups(results)| ==> Sub(results, TieGroups(results)[i], Ranked(cmp)).Ok?
    ensures BreakTiesResult(results, cmp).Err? ==>
              exists i :: 0 <= i < |TieGroups(results)| &&
                Sub(results, TieGroups(results)[i], Ranked(cmp)) == BreakTiesResult(results, cmp) &&
                forall j :: 0 <= j < i ==> Sub(results, TieGroups(results)[j], Ranked(cmp)).Ok?
  {
    BreakTiesUnfold(results, cmp);
    ResolveOutcome(results, TieGroups(results), Ranked(cmp));
  }

  /** The shape of a successful `breakTies`: the same length and the same
      names; the entries before the first group untouched; the names outside
      the groups where they were; every group holding its sub-ranking, offset
      from the entry before it; the entry after a group one above the group's
      last; score differences elsewhere kept; C(k, 2) calls per group of k. */
  lemma BreakTiesShape(results: seq<Entry>, cmp: Comparator)
    requires BreakTiesResult(results, cmp).Ok?
    ensures Fits(TieGroups(results), |results|)
    ensures var out := BreakTiesResult(results, cmp).value;
      && |out| == |results|
      && multiset(Names(out)) == multiset(Names(results))
      && (forall p :: 0 <= p < |results| && (TieGroups(results) == [] || p < TieGroups(results)[0].0) ==>
            out[p] == results[p])
      && (forall p :: 0 <= p < |results| && !InGroup(TieGroups(results), p) ==> out[p].item == results[p].item)
      && (forall i :: 0 <= i < |TieGroups(results)| ==>
            Filled(out, Sub(results, TieGroups(results)[i], Ranked(cmp)), TieGroups(results)[i]))
      && (forall i :: 0 <= i < |TieGroups(results)| ==> StepsUpAfter(out, TieGroups(results)[i]))
      && (forall p :: 0 < p < |results| && !InGroup(TieGroups(results), p) && !InGroup(TieGroups(results), p - 1) ==>
            out[p].score - out[p - 1].score == results[p].score - results[p - 1].score)
    ensures |BreakTiesCalls(results, cmp)| == GroupComparisons(TieGroups(results))
  {
    BreakTiesUnfold(results, cmp);
    var groups, rank := TieGroups(results), Ranked(cmp);
    ResolveKeepsNameSet(results, groups, rank);
    ResolveKeepsFront(results, groups, rank);
    ResolveKeepsNames(results, groups, rank);
    ResolveFillsGroups(results, groups, rank);
    ResolveStepsAfterGroups(results, groups, rank);
    ResolveKeepsGaps(results, groups, rank);
    ResolveCallCount(results, groups, rank, CallsOf(cmp));
  }

  /** Inside a group, neighbours differ as in the group's sub-ranking. */
  lemma DenseInGroup(out: seq<Entry>, sub: seq<Entry>, g: (int, int), p: int)
    requires 0 <= g.0 < p < g.1 <= |out| && |sub| == g.1 - g.0 && Dense(sub)
    requires Filled(out, Ok(sub), g)
    ensures out[p].score == out[p - 1].score || out[p].score == out[p - 1].score + 1
  {
    assert out[g.0 + (p - g.0)] == Entry(sub[p - g.0].item, sub[p - g.0].score + Base(out, g.0));
    assert out[g.0 + (p - 1 - g.0)] == Entry(sub[p - 1 - g.0].item, sub[p - 1 - g.0].score + Base(out, g.0));
  }

  /** A group starts at its base score. */
  lemma DenseAtGroupStart(out: seq<Entry>, sub: seq<Entry>, g: (int, int))
    requires 0 <= g.0 < g.1 <= |out| && |sub| == g.1 - g.0 && Dense(sub)
    requires Filled(out, Ok(sub), g)
    ensures out[g.0].score == Base(out, g.0)
  {
    assert out[g.0 + 0] == Entry(sub[0].item, sub[0].score + Base(out, g.0));
  }

  /** One neighbour step of the spliced list: inside a group, at a group's
      start, just after a group, or in a stretch no group touched. */
  lemma DenseStep(res: seq<Entry>, out: seq<Entry>, groups: seq<(int, int)>, rank: Ranker, p: int)
    requires 0 < p < |out| == |res| && Fits(groups, |res|) && Dense(res) && Ranks(rank)
    requires forall i :: 0 <= i < |groups| ==> Sub(res, groups[i], rank).Ok?
    requires forall i :: 0 <= i < |groups| ==> Filled(out, Sub(res, groups[i], rank), groups[i])
    requires forall i :: 0 <= i < |groups| ==> StepsUpAfter(out, groups[i])
    requires !InGroup(groups, p) && !InGroup(groups, p - 1) ==>
               out[p].score - out[p - 1].score == res[p].score - res[p - 1].score
    ensures out[p].score == out[p - 1].score || out[p].score == out[p - 1].score + 1
  {
    if InGroup(groups, p) {
      var i :| 0 <= i < |groups| && groups[i].0 <= p < groups[i].1;
      var sub := Sub(res, groups[i], rank).value;
      if groups[i].0 < p {
        DenseInGroup(out, sub, groups[i], p);
      } else {
        DenseAtGroupStart(out, sub, groups[i]);
      }
    } else if InGroup(groups, p - 1) {
      var i :| 0 <= i < |groups| && groups[i].0 <= p - 1 < groups[i].1;
      assert StepsUpAfter(out, groups[i]);
    }
  }

  /** Scores with no gaps come out with no gaps. */
  lemma DenseFromShape(res: seq<Entry>, out: seq<Entry>, groups: seq<(int, int)>, rank: Ranker)
    requires |out| == |res| && Fits(groups, |res|) && Dense(res) && Ranks(rank)
    requires forall i :: 0 <= i < |groups| ==> Sub(res, groups[i], rank).Ok?
    requires forall p :: 0 <= p < |res| && (groups == [] || p < groups[0].0) ==> out[p] == res[p]
    requires forall i :: 0 <= i < |groups| ==> Filled(out, Sub(res, groups[i], rank), groups[i])
    requires forall i :: 0 <= i < |groups| ==> StepsUpAfter(out, groups[i])
    requires forall p :: 0 < p < |res| && !InGroup(groups, p) && !InGroup(groups, p - 1) ==>
               out[p].score - out[p - 1].score == res[p].score - res[p - 1].score
    ensures Dense(out)
  {
    if |out| > 0 && groups != [] && groups[0].0 == 0 {
      DenseAtGroupStart(out, Sub(res, groups[0], rank).value, groups[0]);
    }
    forall p | 0 < p < |out| ensures out[p].score == out[p - 1].score || out[p].score == out[p - 1].score + 1 {
      DenseStep(res, out, groups, rank, p);
    }
  }

  /** On scores with no gaps (as `normalizeScores` leaves them), `breakTies`
      returns scores with no gaps. */
  lemma BreakTiesKeepsDense(results: seq<Entry>, cmp: Comparator)
    requires Dense(results) && BreakTiesResult(results, cmp).Ok?
    ensures Dense(BreakTiesResult(results, cmp).value)
  {
    BreakTiesUnfold(results, cmp);
    BreakTiesShape(results, cmp);
    BreakTiesOutcome(results, cmp);
    DenseFromShape(results, BreakTiesResult(results, cmp).value, TieGroups(results), Ranked(cmp));
  }

  /** The splicing of one group into the array: the group's entries are
      overwritten with the sub-ranking, then the entries after it shifted. */
  method SpliceInto(res: array<Entry>, first: int, after: int, sub: seq<Entry>)
    requires 0 <= first < after <= res.Length && |sub| == after - first
    modifies res
    ensures res[..] == Splice(old(res[..]), first, after, sub)
  {
    ghost var snap := res[..];
    var baseScoreBefore := if first <= 0 then 0 else res[first - 1].score + 1;
    var gi := 0;
    var ri := first;
    while ri < after
      invariant first <= ri <= after && gi == ri - first
      invariant forall p :: 0 <= p < res.Length && (p < first || ri <= p) ==> res[p] == snap[p]
      invariant forall p :: first <= p < ri ==> res[p] == Entry(sub[p - first].item, sub[p - first].score + baseScoreBefore)
    {
      var s := sub[gi];
      gi := gi + 1;
      res[ri] := Entry(s.item, s.score + baseScoreBefore);
      ri := ri + 1;
    }
    assert gi == |sub|;
    assert res[after - 1] == Entry(sub[after - first - 1].item, sub[after - first - 1].score + baseScoreBefore);
    if after < res.Length {
      var baseScoreAfter := res[after - 1].score + 1 - res[after].score;
      ri := after;
      while ri < res.Length
        invariant after <= ri <= res.Length
        invariant forall p :: 0 <= p < first ==> res[p] == snap[p]
        invariant forall p :: first <= p < after ==> res[p] == Entry(sub[p - first].item, sub[p - first].score + baseScoreBefore)
        invariant forall p :: after <= p < ri ==> res[p] == Entry(snap[p].item, snap[p].score + baseScoreAfter)
        invariant forall p :: ri <= p < res.Length ==> res[p] == snap[p]
      {
        res[ri] := Entry(res[ri].item, res[ri].score + baseScoreAfter);
        ri := ri + 1;
      }
    }
    SpliceEntries(snap, first, after, sub, res[..], baseScoreBefore);
  }

  /** Entry by entry what `Splice` holds, given the base of the group. */
  lemma SpliceEntries(res: seq<Entry>, f: int, a: int, sub: seq<Entry>, out: seq<Entry>, base: int)
    requires 0 <= f < a <= |res| && |sub| == a - f && |out| == |res| && base == Base(res, f)
    requires forall p :: 0 <= p < f ==> out[p] == res[p]
    requires forall p :: f <= p < a ==> out[p] == Entry(sub[p - f].item, sub[p - f].score + base)
    requires forall p :: a <= p < |res| ==>
               out[p] == Entry(res[p].item, res[p].score + (sub[a - f - 1].score + base + 1 - res[a].score))
    ensures out == Splice(res, f, a, sub)
  {
    var r := Splice(res, f, a, sub);
    forall p | 0 <= p < |res| ensures out[p] == r[p] {
      if p < f {
        assert r[p] == res[..f][p];
      } else if p < a {
        assert r[p] == (res[..f] + seq(a - f, k requires 0 <= k < a - f => Entry(sub[k].item, sub[k].score + base)))[p];
      }
    }
  }

  /** One turn of the loop over the groups: the group's step, from `before`
      to `next`, keeps the loop's account of the result and of the calls,
      the first failure met being the one kept. */
  lemma GroupDone(before: seq<Entry>, next: seq<Entry>, todo: seq<(int, int)>, rank: Ranker, asks: Asker,
                  whole: Result<seq<Entry>>, allCalls: seq<(string, string)>, calls: seq<(string, string)>,
                  subCalls: seq<(string, string)>, failure: Option<Error>, groupFailure: Option<Error>)
    requires Fits(todo, |before|) && Sized(rank) && todo != []
    requires failure.None? ==> Resolve(before, todo, rank) == whole
    requires failure.Some? ==> whole == Err(failure.value)
    requires calls + ResolveCalls(before, todo, rank, asks) == allCalls
    requires subCalls == asks(Names(before[todo[0].0..todo[0].1]))
    requires Sub(before, todo[0], rank).Err? ==> groupFailure == Some(Sub(before, todo[0], rank).error) && next == before
    requires Sub(before, todo[0], rank).Ok? ==>
               groupFailure == None && next == Splice(before, todo[0].0, todo[0].1, Sub(before, todo[0], rank).value)
    ensures Fits(todo[1..], |next|)
    ensures var kept := if failure.None? then groupFailure else failure;
            (kept.None? ==> Resolve(next, todo[1..], rank) == whole) && (kept.Some? ==> whole == Err(kept.value))
    ensures calls + subCalls + ResolveCalls(next, todo[1..], rank, asks) == allCalls
  {
    ResolveStep(before, next, todo, rank, asks);
    var rest := ResolveCalls(next, todo[1..], rank, asks);
    ConcatAssoc(calls, subCalls, rest);
    var step := Sub(before, todo[0], rank);
    if step.Err? {
      assert groupFailure == Some(step.error) && Resolve(before, todo, rank) == Err(step.error);
    } else {
      assert groupFailure == None && Resolve(before, todo, rank) == Resolve(next, todo[1..], rank);
    }
  }

  lemma ConcatAssoc<T>(a: seq<T>, b: seq<T>, c: seq<T>)
    ensures a + (b + c) == a + b + c
  {
  }

  /** The work for one tie group [first, after): rank its names with
      `compareAllSort` and splice the sub-ranking in. */
  method RankGroup(res: array<Entry>, first: int, after: int, cmp: Comparator)
    returns (failure: Option<Error>, ghost subCalls: seq<(string, string)>)
    requires 0 <= first < after <= res.Length
    modifies res
    ensures subCalls == CallsOf(cmp)(Names(old(res[..])[first..after]))
    ensures Sub(old(res[..]), (first, after), Ranked(cmp)).Err? ==>
              failure == Some(Sub(old(res[..]), (first, after), Ranked(cmp)).error) && res[..] == old(res[..])
    ensures Sub(old(res[..]), (first, after), Ranked(cmp)).Ok? ==>
              failure == None &&
              res[..] == Splice(old(res[..]), first, after, Sub(old(res[..]), (first, after), Ranked(cmp)).value)
  {
    assert res[first..after] == res[..][first..after];
    var subRes;
    subRes, subCalls := CompareAllSort(Names(res[first..after]), cmp);
    if subRes.Err? {
      return Some(subRes.error), subCalls;
    }
    assert after > first && after - first == |subRes.value|;
    SpliceInto(res, first, after, subRes.value);
    failure := None;
  }

  /** The loop of `breakTies` over the groups, in ascending order. A group
      that fails splices nothing and the later groups are still ranked and
      spliced in; the error is that of the first group that failed. */
  method RankGroups(res: array<Entry>, groups: seq<(int, int)>, cmp: Comparator)
    returns (failure: Option<Error>, ghost calls: seq<(string, string)>)
    requires Fits(groups, res.Length)
    modifies res
    ensures Sized(Ranked(cmp))
    ensures calls == ResolveCalls(old(res[..]), groups, Ranked(cmp), CallsOf(cmp))
    ensures Resolve(old(res[..]), groups, Ranked(cmp)).Err? ==>
              failure == Some(Resolve(old(res[..]), groups, Ranked(cmp)).error)
    ensures Resolve(old(res[..]), groups, Ranked(cmp)).Ok? ==>
              failure == None && res[..] == Resolve(old(res[..]), groups, Ranked(cmp)).value
  {
    CompareAllRanks(cmp);
    ghost var rank, asks := Ranked(cmp), CallsOf(cmp);
    ghost var start := res[..];
    calls := [];
    failure := None;
    var gi := 0;
    while gi < |groups|
      invariant 0 <= gi <= |groups|
      invariant Fits(groups[gi..], res.Length)
      invariant failure.None? ==> Resolve(res[..], groups[gi..], rank) == Resolve(start, groups, rank)
      invariant failure.Some? ==> Resolve(start, groups, rank) == Err(failure.value)
      invariant calls + ResolveCalls(res[..], groups[gi..], rank, asks) == ResolveCalls(start, groups, rank, asks)
    {
      var (first, after) := groups[gi];
      ghost var before := res[..];
      assert groups[gi..][0] == groups[gi] && groups[gi..][1..] == groups[gi + 1..];
      var groupFailure;
      ghost var subCalls;
      groupFailure, subCalls := RankGroup(res, first, after, cmp);
      GroupDone(before, res[..], groups[gi..], rank, asks, Resolve(start, groups, rank),
                ResolveCalls(start, groups, rank, asks), calls, subCalls, failure, groupFailure);
      if failure.None? {
        failure := groupFailure;
      }
      calls := calls + subCalls;
      gi := gi + 1;
    }
    assert groups[gi..] == [];
  }

  /** `breakTies`, the groups taken one after the other in ascending order.
      Scores are non-negative in every ranked result. */
  method BreakTies(results: seq<Entry>, cmp: Comparator)
    returns (r: Result<seq<Entry>>, ghost calls: seq<(string, string)>)
    requires forall k :: 0 <= k < |results| ==> results[k].score >= 0
    ensures r == BreakTiesResult(results, cmp)
    ensures calls == BreakTiesCalls(results, cmp)
  {
    if |ToSet(Names(results))| != |results| {
      return Err(DuplicateItems), [];
    }
    var res := new Entry[|results|](i requires 0 <= i < |results| => results[i]);
    assert res[..] == results;
    var groups := FindTieGroups(res[..]);
    TieGroupsFit(results);
    var failure;
    failure, calls := RankGroups(res, groups, cmp);
    if failure.Some? {
      return Err(failure.value), calls;
    }
    r := Ok(res[..]);
  }
}
