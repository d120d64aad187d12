/** `mergeInsertionSort`: pair the items, sort the larger of each pair
    recursively, then binary-insert the smaller ones and the leftover. */
module FordJohnson {
  import opened Common
  import opened MergeInsertionCounts

  /** One comparator call, with its two arguments in order. */
  type Call = (string, string)

  /** An order on names the comparator may follow (a ghost parameter of
      the proofs; the sort itself only sees the comparator's answers). */
  type Less = (string, string) -> bool

  /** `a` does not come after `b` in the order `less`. */
  predicate NotAfter(less: Less, a: string, b: string) {
    !less(b, a)
  }

  lemma NotAfterTransitive(less: Less, names: seq<string>, a: string, b: string, c: string)
    requires StrictTotalOn(less, names) && a in names && b in names && c in names
    requires NotAfter(less, a, b) && NotAfter(less, b, c)
    ensures NotAfter(less, a, c)
  {
  }

  /** The comparator answers every call on two of the names. */
  ghost predicate Decides(cmp: Comparator, names: seq<string>) {
    forall a, b :: a in names && b in names ==> cmp(a, b).Ok?
  }

  /** The comparator answers every call on two of the names as the strict
      total order `less` says: 1 when the first argument is below the
      second, 0 when it is above (`a>b?0:1` follows name order,
      `makeSimpleComp(list)` the order of the list). */
  ghost predicate Consistent(cmp: Comparator, less: Less, names: seq<string>) {
    && StrictTotalOn(less, names)
    && Decides(cmp, names)
    && forall a, b :: a in names && b in names ==>
         (less(a, b) ==> cmp(a, b).value == 1) && (less(b, a) ==> cmp(a, b).value == 0)
  }

  /** What holds on some names holds on any of them. */
  lemma ConsistentPart(cmp: Comparator, less: Less, part: seq<string>, whole: seq<string>)
    requires forall x :: x in part ==> x in whole
    ensures Decides(cmp, whole) ==> Decides(cmp, part)
    ensures Consistent(cmp, less, whole) ==> Consistent(cmp, less, part)
  {
    if Consistent(cmp, less, whole) {
      StrictTotalOnPart(less, part, whole);
    }
  }

  /** The name x occurs at most once in s. */
  ghost predicate AtMostOnce(s: seq<string>, x: string) {
    multiset(s)[x] <= 1
  }

  /** No name occurs twice. */
  ghost predicate Unique(s: seq<string>) {
    forall x :: AtMostOnce(s, x)
  }

  /** Two positions of a sequence without repeats hold different names. */
  lemma UniqueApart(s: seq<string>, i: nat, j: nat)
    requires Unique(s) && i < j < |s|
    ensures s[i] != s[j]
  {
    var x := s[i];
    assert AtMostOnce(s, x);
    assert s == s[..j] + s[j..];
    assert x in s[..j];
    assert multiset(s)[x] == multiset(s[..j])[x] + multiset(s[j..])[x];
    assert multiset(s[j..])[x] == 0;
    assert s[j] == s[j..][0];
  }

  /** A sequence of distinct names, in the index sense, has no repeats. */
  lemma {:induction false} DistinctIsUnique(s: seq<string>)
    requires Distinct(s)
    ensures Unique(s)
  {
    if s != [] {
      assert Distinct(s[1..]) by {
        forall i, j | 0 <= i < j < |s[1..]| ensures s[1..][i] != s[1..][j] {
          assert s[1..][i] == s[i + 1] && s[1..][j] == s[j + 1];
        }
      }
      DistinctIsUnique(s[1..]);
      assert s == [s[0]] + s[1..];
      assert forall j :: 0 <= j < |s[1..]| ==> s[1..][j] == s[j + 1] != s[0];
      assert s[0] !in s[1..];
      forall x ensures AtMostOnce(s, x) {
        assert AtMostOnce(s[1..], x);
        assert multiset(s)[x] == multiset([s[0]])[x] + multiset(s[1..])[x];
      }
    }
  }

  /** Part of a multiset identity: everything in `a` is in `c`, at most as
      often. */
  lemma MultisetPart(a: seq<string>, b: multiset<string>, c: seq<string>)
    requires multiset(a) + b == multiset(c)
    ensures forall x :: x in a ==> x in c
    ensures forall x :: multiset(a)[x] <= multiset(c)[x]
  {
    forall x | x in a ensures x in c {
      assert x in multiset(a);
      assert multiset(c)[x] == multiset(a)[x] + b[x];
    }
  }

  /** Every logged call was answered. */
  predicate Answered(cmp: Comparator, calls: seq<Call>) {
    forall k :: 0 <= k < |calls| ==> cmp(calls[k].0, calls[k].1).Ok?
  }

  /** The call log of a run that ended in r: all calls answered when r is a
      success; otherwise every call but the last was answered, and the last
      one failed with r's error (the thrown error is passed on unchanged). */
  predicate Reported<T>(cmp: Comparator, calls: seq<Call>, r: Result<T>) {
    if r.Ok? then Answered(cmp, calls) else Failed(cmp, calls, r.error)
  }

  /** Every call but the last was answered; the last one failed with `e`. */
  predicate Failed(cmp: Comparator, calls: seq<Call>, e: Error) {
    && |calls| > 0
    && Answered(cmp, calls[..|calls| - 1])
    && cmp(calls[|calls| - 1].0, calls[|calls| - 1].1) == Err(e)
  }

  /** A run's log after a prefix of answered calls. */
  lemma ReportedAfter<T>(cmp: Comparator, before: seq<Call>, calls: seq<Call>, r: Result<T>)
    requires Answered(cmp, before) && Reported(cmp, calls, r)
    ensures Reported(cmp, before + calls, r)
  {
    if r.Err? {
      assert (before + calls)[..|before + calls| - 1] == before + calls[..|calls| - 1];
    }
  }

  /** Answered logs concatenate. */
  lemma AnsweredConcat(cmp: Comparator, a: seq<Call>, b: seq<Call>)
    requires Answered(cmp, a) && Answered(cmp, b)
    ensures Answered(cmp, a + b)
  {
    assert forall k :: |a| <= k < |a + b| ==> (a + b)[k] == b[k - |a|];
  }

  /** Both arguments of every call are among `items`. */
  predicate Among(calls: seq<Call>, items: seq<string>) {
    forall k :: 0 <= k < |calls| ==> calls[k].0 in items && calls[k].1 in items
  }

  /** No call compares a name with itself. */
  predicate NoSelfCalls(calls: seq<Call>) {
    forall k :: 0 <= k < |calls| ==> calls[k].0 != calls[k].1
  }

  /** The first-step pairs (items[0], items[1]), (items[2], items[3]), ... */
  function Pairing(items: seq<string>): (r: seq<Call>)
    ensures |r| == |items| / 2
    ensures forall k :: 0 <= k < |r| ==> r[k].0 == items[2 * k] && r[k].1 == items[2 * k + 1]
  {
    seq(|items| / 2, k requires 0 <= k < |items| / 2 => (items[2 * k], items[2 * k + 1]))
  }

  /** A pair put as [smaller, larger] by the comparator's answer: kept for
      1, swapped for 0. */
  function Ordered(p: Call, answer: Bit): Call {
    if answer == 1 then p else (p.1, p.0)
  }

  function Smaller(p: Call): string { p.0 }

  function Larger(p: Call): string { p.1 }

  function OptionSeq(o: Option<string>): seq<string> {
    if o.Some? then [o.value] else []
  }

  /** The pairing after |pairs| pairs: the calls so far are the first
      pairs of `Pairing(items)`, all answered, each pair ordered by its
      answer, and the pairs hold the first 2 * |pairs| items. */
  predicate PairedSoFar(items: seq<string>, cmp: Comparator, pairs: seq<Call>, calls: seq<Call>) {
    && 2 * |pairs| <= |items|
    && calls == Pairing(items)[..|pairs|]
    && Answered(cmp, calls)
    && PairsOrdered(items, cmp, pairs)
    && multiset(MapSeq(Larger, pairs)) + multiset(MapSeq(Smaller, pairs)) == multiset(items[..2 * |pairs|])
  }

  /** Pair k is the k-th neighbouring pair put in order by its answer. */
  predicate PairsOrdered(items: seq<string>, cmp: Comparator, pairs: seq<Call>)
    requires 2 * |pairs| <= |items|
  {
    forall k :: 0 <= k < |pairs| ==>
      cmp(items[2 * k], items[2 * k + 1]).Ok? &&
      pairs[k] == Ordered((items[2 * k], items[2 * k + 1]), cmp(items[2 * k], items[2 * k + 1]).value)
  }

  /** Step 1 of `mergeInsertionSort`: one call per neighbouring pair, in
      order, each pair stored as [smaller, larger]; the last item is left
      over when the count is odd. */
  method PairUp(items: seq<string>, cmp: Comparator)
    returns (r: Result<seq<Call>>, leftover: Option<string>, ghost calls: seq<Call>)
    ensures Reported(cmp, calls, r)
    ensures |calls| <= |items| / 2 && calls == Pairing(items)[..|calls|]
    ensures r.Ok? ==> calls == Pairing(items) && |r.value| == |items| / 2
    ensures r.Ok? ==> PairsOrdered(items, cmp, r.value)
    ensures r.Ok? ==> leftover == if |items| % 2 == 1 then Some(items[|items| - 1]) else None
    ensures r.Ok? ==> multiset(MapSeq(Larger, r.value)) + multiset(MapSeq(Smaller, r.value))
                        + multiset(OptionSeq(leftover)) == multiset(items)
    ensures Decides(cmp, items) ==> r.Ok?
  {
    var pairs: seq<Call> := [];
    calls := [];
    var i := 0;
    while i + 1 < |items|
      invariant i == 2 * |pairs| && PairedSoFar(items, cmp, pairs, calls)
      decreases |items| - i
    {
      var a := items[i];
      var b := items[i + 1];
      var answer := cmp(a, b);
      PairCall(items, cmp, pairs, calls, answer);
      if answer.Err? {
        assert a in items && b in items;
        return Err(answer.error), None, calls + [(a, b)];
      }
      var p := if answer.value == 1 then (a, b) else (b, a);
      PairStep(items, cmp, pairs, calls, p);
      calls := calls + [(a, b)];
      pairs := pairs + [p];
      i := i + 2;
    }
    leftover := if i < |items| then Some(items[i]) else None;
    PairedAll(items, cmp, pairs, calls, leftover);
    r := Ok(pairs);
  }

  /** The next pairing call, whatever its answer, keeps the log reported. */
  lemma PairCall(items: seq<string>, cmp: Comparator, pairs: seq<Call>, calls: seq<Call>, answer: Result<Bit>)
    requires PairedSoFar(items, cmp, pairs, calls) && 2 * |pairs| + 1 < |items|
    requires answer == cmp(items[2 * |pairs|], items[2 * |pairs| + 1])
    ensures calls + [(items[2 * |pairs|], items[2 * |pairs| + 1])] == Pairing(items)[..|pairs| + 1]
    ensures answer.Err? ==> Failed(cmp, calls + [(items[2 * |pairs|], items[2 * |pairs| + 1])], answer.error)
  {
    CallStep(cmp, calls, (items[2 * |pairs|], items[2 * |pairs| + 1]), answer);
    var n := |pairs|;
    assert Pairing(items)[..n + 1] == Pairing(items)[..n] + [Pairing(items)[n]];
  }

  /** Appending the pair made of the next two items, in answer order. */
  lemma PairStep(items: seq<string>, cmp: Comparator, pairs: seq<Call>, calls: seq<Call>, p: Call)
    requires PairedSoFar(items, cmp, pairs, calls) && 2 * |pairs| + 1 < |items|
    requires calls + [(items[2 * |pairs|], items[2 * |pairs| + 1])] == Pairing(items)[..|pairs| + 1]
    requires cmp(items[2 * |pairs|], items[2 * |pairs| + 1]).Ok?
    requires p == Ordered((items[2 * |pairs|], items[2 * |pairs| + 1]), cmp(items[2 * |pairs|], items[2 * |pairs| + 1]).value)
    ensures PairedSoFar(items, cmp, pairs + [p], calls + [(items[2 * |pairs|], items[2 * |pairs| + 1])])
  {
    var i := 2 * |pairs|;
    CallStep(cmp, calls, (items[i], items[i + 1]), cmp(items[i], items[i + 1]));
    PairsOrderedStep(items, cmp, pairs, p);
    HalvesStep(items, pairs, p);
  }

  lemma PairsOrderedStep(items: seq<string>, cmp: Comparator, pairs: seq<Call>, p: Call)
    requires 2 * |pairs| + 1 < |items| && PairsOrdered(items, cmp, pairs)
    requires cmp(items[2 * |pairs|], items[2 * |pairs| + 1]).Ok?
    requires p == Ordered((items[2 * |pairs|], items[2 * |pairs| + 1]), cmp(items[2 * |pairs|], items[2 * |pairs| + 1]).value)
    ensures PairsOrdered(items, cmp, pairs + [p])
  {
    var t := pairs + [p];
    assert forall k :: 0 <= k < |pairs| ==> t[k] == pairs[k];
    assert t[|pairs|] == p;
  }

  lemma HalvesStep(items: seq<string>, pairs: seq<Call>, p: Call)
    requires 2 * |pairs| + 1 < |items|
    requires p == (items[2 * |pairs|], items[2 * |pairs| + 1]) || p == (items[2 * |pairs| + 1], items[2 * |pairs|])
    requires multiset(MapSeq(Larger, pairs)) + multiset(MapSeq(Smaller, pairs)) == multiset(items[..2 * |pairs|])
    ensures multiset(MapSeq(Larger, pairs + [p])) + multiset(MapSeq(Smaller, pairs + [p])) ==
              multiset(items[..2 * |pairs| + 2])
  {
    var i := 2 * |pairs|;
    MapSeqSnoc(Larger, pairs, p);
    MapSeqSnoc(Smaller, pairs, p);
    PrefixTwo(items, i);
    TwoMore(MapSeq(Larger, pairs), MapSeq(Smaller, pairs), items[..i], p.1, p.0, items[i], items[i + 1]);
  }

  lemma TwoMore(larger: seq<string>, smaller: seq<string>, before: seq<string>, x: string, y: string, a: string, b: string)
    requires multiset(larger) + multiset(smaller) == multiset(before)
    requires (x == b && y == a) || (x == a && y == b)
    ensures multiset(larger + [x]) + multiset(smaller + [y]) == multiset(before + [a, b])
  {
  }

  /** When no full pair is left, the pairing is complete. */
  lemma PairedAll(items: seq<string>, cmp: Comparator, pairs: seq<Call>, calls: seq<Call>, leftover: Option<string>)
    requires PairedSoFar(items, cmp, pairs, calls) && 2 * |pairs| + 1 >= |items|
    requires leftover == if 2 * |pairs| < |items| then Some(items[2 * |pairs|]) else None
    ensures calls == Pairing(items) && |pairs| == |items| / 2
    ensures leftover == if |items| % 2 == 1 then Some(items[|items| - 1]) else None
    ensures multiset(MapSeq(Larger, pairs)) + multiset(MapSeq(Smaller, pairs))
              + multiset(OptionSeq(leftover)) == multiset(items)
  {
    PrefixAll(Pairing(items));
    if 2 * |pairs| == |items| {
      PrefixAll(items);
    } else {
      PrefixLast(items);
    }
  }

  lemma PrefixAll<T>(s: seq<T>)
    ensures s[..|s|] == s
  {
  }

  lemma PrefixLast<T>(s: seq<T>)
    requires |s| > 0
    ensures s[..|s| - 1] + [s[|s| - 1]] == s
  {
  }

  lemma PrefixTwo<T>(s: seq<T>, i: nat)
    requires i + 2 <= |s|
    ensures s[..i + 2] == s[..i] + [s[i], s[i + 1]]
  {
  }

  /** Inserting between the entries not after `what` and those not before it
      keeps a sequence in order. */
  lemma InsertInOrder(less: Less, s: seq<string>, left: nat, what: string)
    requires OrderedBy(less, s) && left <= |s| && Bracketed(less, s, what, left, left)
    ensures OrderedBy(less, s[..left] + [what] + s[left..])
  {
    var t := s[..left] + [what] + s[left..];
    forall i, j | 0 <= i < j < |t| ensures NotAfter(less, t[i], t[j]) {
      if j < left || left < i {
        assert t[i] == s[if i < left then i else i - 1] && t[j] == s[if j < left then j else j - 1];
      } else if i == left {
        assert t[j] == s[j - 1];
      } else if j == left {
        assert t[i] == s[i];
      } else {
        assert t[i] == s[i] && t[j] == s[j - 1];
      }
    }
  }

  /** `binSearchInsert`: binary search over `result` for the first entry the
      comparator puts after `what`, then `what` spliced in there. */
  method BinSearchInsert(result: seq<string>, what: string, cmp: Comparator, ghost less: Less)
    returns (r: Result<seq<string>>, ghost calls: seq<Call>)
    ensures Reported(cmp, calls, r)
    ensures |calls| <= CeilLog2(|result| + 1)
    ensures Probes(calls, what, result)
    ensures r.Ok? ==> SplicedIn(r.value, result, what)
    ensures r.Ok? ==> multiset(r.value) == multiset(result) + multiset{what}
    ensures Decides(cmp, [what] + result) ==> r.Ok?
    ensures Consistent(cmp, less, [what] + result) && OrderedBy(less, result) ==>
              r.Ok? && OrderedBy(less, r.value)
  {
    SearchDepthIsCeilLog2(|result|);
    var left: nat, right: nat := 0, |result|;
    calls := [];
    SearchStart(result, what, cmp, less);
    while left < right
      invariant Searching(result, what, cmp, less, calls, left, right)
      decreases right - left
    {
      var mid := (left + right) / 2;
      var answer := cmp(what, result[mid]);
      SearchStep(result, what, cmp, less, calls, left, right, answer);
      calls := calls + [(what, result[mid])];
      if answer.Err? {
        return Err(answer.error), calls;
      }
      if answer.value == 1 {
        right := mid;
      } else {
        left := mid + 1;
      }
    }
    r := Ok(result[..left] + [what] + result[left..]);
    SearchEnd(result, what, cmp, less, calls, left);
  }

  /** The state of the binary search with `left..right` still open: the
      calls so far were answered, probed entries of `result`, and leave
      enough of the budget for the rest; under a consistent comparator on
      an ordered `result`, the answers bracket `what` between `left` and
      `right`. */
  ghost predicate Searching(result: seq<string>, what: string, cmp: Comparator, less: Less, calls: seq<Call>,
                            left: nat, right: nat) {
    && left <= right <= |result|
    && |calls| + SearchDepth(right - left) <= SearchDepth(|result|)
    && Answered(cmp, calls) && Probes(calls, what, result)
    && (Consistent(cmp, less, [what] + result) && OrderedBy(less, result) ==>
          Bracketed(less, result, what, left, right))
  }

  lemma SearchStart(result: seq<string>, what: string, cmp: Comparator, less: Less)
    ensures Searching(result, what, cmp, less, [], 0, |result|)
  {
  }

  /** One probe at mid = (left + right) / 2: a failed call ends the search
      with a reported error; an answer keeps the half it points to. */
  lemma SearchStep(result: seq<string>, what: string, cmp: Comparator, less: Less, calls: seq<Call>,
                   left: nat, right: nat, answer: Result<Bit>)
    requires Searching(result, what, cmp, less, calls, left, right) && left < right
    requires answer == cmp(what, result[(left + right) / 2])
    ensures var c := (what, result[(left + right) / 2]);
      && Probes(calls + [c], what, result)
      && |calls + [c]| <= SearchDepth(|result|)
      && (answer.Err? ==> Failed(cmp, calls + [c], answer.error) && !Decides(cmp, [what] + result))
    ensures var mid := (left + right) / 2;
      answer.Ok? ==> Searching(result, what, cmp, less, calls + [(what, result[mid])],
                               if answer.value == 1 then left else mid + 1,
                               if answer.value == 1 then mid else right)
  {
    var mid := (left + right) / 2;
    var rm := result[mid];
    CallStep(cmp, calls, (what, rm), answer);
    ProbeStep(calls, what, result, mid);
    SearchHalves(left, mid, right);
    assert what in [what] + result && rm in [what] + result;
    if answer.Ok? && Consistent(cmp, less, [what] + result) && OrderedBy(less, result) {
      SearchSides(result, what, cmp, less, left, right, answer.value);
    }
  }

  /** The search closed at `left`: splicing `what` in there finishes it. */
  lemma SearchEnd(result: seq<string>, what: string, cmp: Comparator, less: Less, calls: seq<Call>, left: nat)
    requires Searching(result, what, cmp, less, calls, left, left)
    ensures Answered(cmp, calls) && Probes(calls, what, result)
    ensures |calls| <= SearchDepth(|result|)
    ensures SplicedIn(result[..left] + [what] + result[left..], result, what)
    ensures multiset(result[..left] + [what] + result[left..]) == multiset(result) + multiset{what}
    ensures Consistent(cmp, less, [what] + result) && OrderedBy(less, result) ==>
              OrderedBy(less, result[..left] + [what] + result[left..])
  {
    Spliced(result, left, what, cmp, less);
  }

  /** `s` is `result` with `what` spliced in somewhere. */
  predicate SplicedIn(s: seq<string>, result: seq<string>, what: string) {
    exists left :: 0 <= left <= |result| && s == InsertAt(result, left, what)
  }

  function InsertAt(s: seq<string>, at: nat, x: string): (r: seq<string>)
    requires at <= |s|
  {
    if at == 0 then [x] + s else [s[0]] + InsertAt(s[1..], at - 1, x)
  }

  lemma {:induction false} InsertAtSplice(s: seq<string>, at: nat, x: string)
    requires at <= |s|
    ensures InsertAt(s, at, x) == s[..at] + [x] + s[at..]
  {
    if at > 0 {
      InsertAtSplice(s[1..], at - 1, x);
      assert s[1..][..at - 1] == s[1..at];
      assert s[1..][at - 1..] == s[at..];
      assert s[..at] == [s[0]] + s[1..at];
    }
  }

  /** Every probe compares `what` with an entry of `result`. */
  predicate Probes(calls: seq<Call>, what: string, result: seq<string>) {
    forall k :: 0 <= k < |calls| ==> calls[k].0 == what && calls[k].1 in result
  }

  lemma ProbeStep(calls: seq<Call>, what: string, result: seq<string>, mid: nat)
    requires Probes(calls, what, result) && mid < |result|
    ensures Probes(calls + [(what, result[mid])], what, result)
  {
  }

  /** Whatever the answer, the log after one more call is reported: an
      answered call extends an answered log, a failing one ends it. */
  lemma CallStep(cmp: Comparator, calls: seq<Call>, c: Call, answer: Result<Bit>)
    requires Answered(cmp, calls) && answer == cmp(c.0, c.1)
    ensures answer.Ok? ==> Answered(cmp, calls + [c])
    ensures answer.Err? ==> Failed(cmp, calls + [c], answer.error)
  {
    assert (calls + [c])[..|calls|] == calls;
  }

  /** Entries before `left` are not after `what`, entries from `right` on
      are not before it. */
  predicate Bracketed(less: Less, result: seq<string>, what: string, left: nat, right: nat) {
    && (forall k :: 0 <= k < left && k < |result| ==> NotAfter(less, result[k], what))
    && (forall k :: right <= k < |result| ==> NotAfter(less, what, result[k]))
  }

  /** The splice the search ends with. */
  lemma Spliced(result: seq<string>, left: nat, what: string, cmp: Comparator, less: Less)
    requires left <= |result|
    requires Consistent(cmp, less, [what] + result) && OrderedBy(less, result) ==>
               Bracketed(less, result, what, left, left)
    ensures SplicedIn(result[..left] + [what] + result[left..], result, what)
    ensures multiset(result[..left] + [what] + result[left..]) == multiset(result) + multiset{what}
    ensures Consistent(cmp, less, [what] + result) && OrderedBy(less, result) ==>
              OrderedBy(less, result[..left] + [what] + result[left..])
  {
    InsertAtSplice(result, left, what);
    assert result == result[..left] + result[left..];
    if Consistent(cmp, less, [what] + result) && OrderedBy(less, result) {
      InsertInOrder(less, result, left, what);
    }
  }

  /** One probe of the binary search at mid = (left + right) / 2 leaves at
      most floor((right - left) / 2) entries, whichever half is kept. */
  lemma SearchHalves(left: nat, mid: nat, right: nat)
    requires left < right && mid == (left + right) / 2
    ensures 1 + SearchDepth(mid - left) <= SearchDepth(right - left)
    ensures 1 + SearchDepth(right - (mid + 1)) <= SearchDepth(right - left)
  {
    assert mid - left == (right - left) / 2 && right - (mid + 1) <= (right - left) / 2;
    SearchDepthMonotone(right - (mid + 1), mid - left);
  }

  /** For a consistent comparator on an ordered chain, the probed entry
      sides with the answer, and so does everything beyond it. */
  lemma SearchSides(result: seq<string>, what: string, cmp: Comparator, less: Less,
                    left: nat, right: nat, answer: Bit)
    requires left < right <= |result|
    requires cmp(what, result[(left + right) / 2]) == Ok(answer)
    requires Consistent(cmp, less, [what] + result) && OrderedBy(less, result)
    requires Bracketed(less, result, what, left, right)
    ensures var mid := (left + right) / 2;
      Bracketed(less, result, what, if answer == 1 then left else mid + 1, if answer == 1 then mid else right)
  {
    var names := [what] + result;
    var mid := (left + right) / 2;
    var rm := result[mid];
    assert what in names && rm in names;
    if answer == 1 {
      assert NotAfter(less, what, rm);
      forall k | mid <= k < |result| ensures NotAfter(less, what, result[k]) {
        if k > mid {
          assert result[k] in names;
          NotAfterTransitive(less, names, what, rm, result[k]);
        }
      }
    } else {
      assert NotAfter(less, rm, what);
      forall k | 0 <= k <= mid ensures NotAfter(less, result[k], what) {
        if k < mid {
          assert result[k] in names;
          NotAfterTransitive(less, names, result[k], rm, what);
        }
      }
    }
  }

  /** `mergeInsertionSort`, with the comparator's calls logged. It fails
      only when a call fails, and it sorts by whatever strict total order
      a consistent comparator follows. */
  method MergeInsertionSort(items: seq<string>, cmp: Comparator, ghost less: Less)
    returns (r: Result<seq<string>>, ghost calls: seq<Call>)
    ensures |items| <= 1 ==> r == Ok(items) && calls == []
    ensures Reported(cmp, calls, r)
    ensures r.Ok? ==> multiset(r.value) == multiset(items)
    ensures Decides(cmp, items) ==> r.Ok?
    ensures Consistent(cmp, less, items) ==> r.Ok? && OrderedBy(less, r.value)
    ensures Among(calls, items)
    ensures Unique(items) ==> NoSelfCalls(calls)
    decreases |items|
  {
    if |items| <= 1 {
      return Ok(items), [];
    }
    var paired, leftover, pairCalls := PairUp(items, cmp);
    calls := pairCalls;
    PairCallsAmong(items, pairCalls);
    if paired.Err? {
      return Err(paired.error), calls;
    }
    var pairs := paired.value;
    var larger := MapSeq(Larger, pairs);
    var sub, subCalls := MergeInsertionSort(larger, cmp, less);
    SubProperties(items, cmp, less, calls, pairs, leftover, subCalls, sub);
    calls := calls + subCalls;
    if sub.Err? {
      return Err(sub.error), calls;
    }
    var inserted, insCalls := InsertLosers(items, cmp, less, sub.value, pairs, leftover);
    assert Outcome(items, cmp, less, insCalls, inserted);
    LogConcat(cmp, calls, insCalls, inserted, items);
    return inserted, calls + insCalls;
  }

  /** Steps 3 and 4 of `mergeInsertionSort`: binary-insert the smaller name
      of each pair, in pair order, and then the leftover, into the sorted
      larger names. */
  method InsertLosers(items: seq<string>, cmp: Comparator, ghost less: Less, sorted: seq<string>,
                      pairs: seq<Call>, leftover: Option<string>)
    returns (r: Result<seq<string>>, ghost calls: seq<Call>)
    requires Inserting(items, cmp, less, [], sorted, Rest(pairs, leftover, 0))
    ensures Outcome(items, cmp, less, calls, r)
  {
    var result := sorted;
    calls := [];
    var j := 0;
    while j < |pairs|
      invariant 0 <= j <= |pairs|
      invariant Inserting(items, cmp, less, calls, result, Rest(pairs, leftover, j))
    {
      var inserted;
      inserted, calls := InsertNext(items, cmp, less, calls, result, pairs[j].0, Rest(pairs, leftover, j + 1));
      if inserted.Err? {
        return inserted, calls;
      }
      result := inserted.value;
      j := j + 1;
    }
    if leftover.Some? {
      LastRest(pairs, leftover.value);
      var inserted;
      inserted, calls := InsertNext(items, cmp, less, calls, result, leftover.value, []);
      if inserted.Err? {
        return inserted, calls;
      }
      result := inserted.value;
    }
    r := Ok(result);
    Inserted(items, cmp, less, calls, result);
  }

  /** What a run of the sort promises about its result r and call log:
      the log is reported for r, a success is a permutation of `items`, a
      comparator answering every call gives a success, a consistent one a
      success in its order, and the calls compare names of `items`, never
      one with itself when names are unique. */
  ghost predicate Outcome(items: seq<string>, cmp: Comparator, less: Less, calls: seq<Call>,
                          r: Result<seq<string>>) {
    && Reported(cmp, calls, r)
    && (r.Ok? ==> multiset(r.value) == multiset(items))
    && (Decides(cmp, items) ==> r.Ok?)
    && (Consistent(cmp, less, items) ==> r.Ok? && OrderedBy(less, r.value))
    && Among(calls, items)
    && (Unique(items) ==> NoSelfCalls(calls))
  }

  /** One `binSearchInsert` of steps 3 and 4: `what` goes into `result`,
      and its calls extend the log. */
  method InsertNext(items: seq<string>, cmp: Comparator, ghost less: Less, ghost calls: seq<Call>,
                    result: seq<string>, what: string, ghost rest: seq<string>)
    returns (r: Result<seq<string>>, ghost log: seq<Call>)
    requires Inserting(items, cmp, less, calls, result, [what] + rest)
    ensures r.Err? ==> Outcome(items, cmp, less, log, r)
    ensures r.Ok? ==> Inserting(items, cmp, less, log, r.value, rest)
  {
    ghost var insCalls;
    r, insCalls := BinSearchInsert(result, what, cmp, less);
    InsertProperties(items, cmp, less, calls, result, what, rest, insCalls, r);
    log := calls + insCalls;
  }

  /** The names still to be inserted after j losers: the remaining losers,
      then the leftover. */
  function Rest(pairs: seq<Call>, leftover: Option<string>, j: nat): (r: seq<string>)
    requires j <= |pairs|
    decreases |pairs| - j
  {
    if j == |pairs| then OptionSeq(leftover) else [pairs[j].0] + Rest(pairs, leftover, j + 1)
  }

  /** Before any insertion, the names to insert are the smaller halves and
      the leftover. */
  lemma {:induction false} RestNames(pairs: seq<Call>, leftover: Option<string>, j: nat)
    requires j <= |pairs|
    ensures multiset(Rest(pairs, leftover, j)) == multiset(MapSeq(Smaller, pairs[j..])) + multiset(OptionSeq(leftover))
    decreases |pairs| - j
  {
    if j < |pairs| {
      RestNames(pairs, leftover, j + 1);
      assert pairs[j..][1..] == pairs[j + 1..];
    }
  }

  /** The state of the insertion steps: `result` and the names still to be
      inserted make up `items`, every call so far was answered and compared
      names of `items` (never one with itself when names are unique), and
      `result` is in the order a consistent comparator follows. */
  ghost predicate Inserting(items: seq<string>, cmp: Comparator, less: Less, calls: seq<Call>,
                            result: seq<string>, rest: seq<string>) {
    && multiset(result) + multiset(rest) == multiset(items)
    && Answered(cmp, calls) && Among(calls, items)
    && (Unique(items) ==> NoSelfCalls(calls))
    && (Consistent(cmp, less, items) ==> OrderedBy(less, result))
  }

  /** With nothing left to insert, `result` is the finished sort. */
  lemma Inserted(items: seq<string>, cmp: Comparator, less: Less, calls: seq<Call>, result: seq<string>)
    requires Inserting(items, cmp, less, calls, result, [])
    ensures Outcome(items, cmp, less, calls, Ok(result))
  {
  }

  /** After the last loser only the leftover remains. */
  lemma LastRest(pairs: seq<Call>, x: string)
    ensures Rest(pairs, Some(x), |pairs|) == [x] + []
  {
  }

  /** The pairing calls compare neighbours of `items`. */
  lemma PairCallsAmong(items: seq<string>, calls: seq<Call>)
    requires |calls| <= |items| / 2 && calls == Pairing(items)[..|calls|]
    ensures Among(calls, items)
    ensures Unique(items) ==> NoSelfCalls(calls)
  {
    if Unique(items) {
      forall k | 0 <= k < |calls| ensures calls[k].0 != calls[k].1 {
        assert calls[k] == (items[2 * k], items[2 * k + 1]);
        UniqueApart(items, 2 * k, 2 * k + 1);
      }
    }
  }

  /** What the recursive call on the larger halves gives back about
      `items`: its calls are among `items` too, and on success the
      insertion steps can start from its result. */
  lemma SubProperties(items: seq<string>, cmp: Comparator, less: Less, pairCalls: seq<Call>, pairs: seq<Call>,
                      leftover: Option<string>, subCalls: seq<Call>, sub: Result<seq<string>>)
    requires Answered(cmp, pairCalls) && Among(pairCalls, items) && (Unique(items) ==> NoSelfCalls(pairCalls))
    requires multiset(MapSeq(Larger, pairs)) + multiset(MapSeq(Smaller, pairs)) + multiset(OptionSeq(leftover))
               == multiset(items)
    requires Reported(cmp, subCalls, sub)
    requires Among(subCalls, MapSeq(Larger, pairs)) && (Unique(MapSeq(Larger, pairs)) ==> NoSelfCalls(subCalls))
    requires sub.Ok? ==> multiset(sub.value) == multiset(MapSeq(Larger, pairs))
    requires Decides(cmp, MapSeq(Larger, pairs)) ==> sub.Ok?
    requires Consistent(cmp, less, MapSeq(Larger, pairs)) ==> sub.Ok? && OrderedBy(less, sub.value)
    ensures Reported(cmp, pairCalls + subCalls, sub)
    ensures Among(pairCalls + subCalls, items)
    ensures Unique(items) ==> NoSelfCalls(pairCalls + subCalls)
    ensures Decides(cmp, items) ==> sub.Ok?
    ensures Consistent(cmp, less, items) ==> sub.Ok?
    ensures sub.Ok? ==> Inserting(items, cmp, less, [], sub.value, Rest(pairs, leftover, 0))
  {
    var larger := MapSeq(Larger, pairs);
    MultisetPart(larger, multiset(MapSeq(Smaller, pairs)) + multiset(OptionSeq(leftover)), items);
    ConsistentPart(cmp, less, larger, items);
    AmongWider(subCalls, larger, items);
    if Unique(items) {
      forall x ensures AtMostOnce(larger, x) {
        assert AtMostOnce(items, x);
      }
    }
    LogConcat(cmp, pairCalls, subCalls, sub, items);
    if sub.Ok? {
      StartInserting(items, cmp, less, pairs, leftover, sub.value);
    }
  }

  /** The insertion steps start from the sorted larger halves. */
  lemma StartInserting(items: seq<string>, cmp: Comparator, less: Less, pairs: seq<Call>,
                        leftover: Option<string>, sorted: seq<string>)
    requires multiset(MapSeq(Larger, pairs)) + multiset(MapSeq(Smaller, pairs)) + multiset(OptionSeq(leftover))
               == multiset(items)
    requires multiset(sorted) == multiset(MapSeq(Larger, pairs))
    requires Consistent(cmp, less, items) ==> OrderedBy(less, sorted)
    ensures Inserting(items, cmp, less, [], sorted, Rest(pairs, leftover, 0))
  {
    RestNames(pairs, leftover, 0);
    assert pairs[0..] == pairs;
  }

  /** Calls among a sub-collection are among the whole. */
  lemma AmongWider(calls: seq<Call>, part: seq<string>, items: seq<string>)
    requires Among(calls, part) && forall x :: x in part ==> x in items
    ensures Among(calls, items)
  {
  }

  /** Two logs one after the other: an answered one, then one reported for
      r; both among `items` and, for unique names, without self-comparisons. */
  lemma LogConcat<T>(cmp: Comparator, a: seq<Call>, b: seq<Call>, r: Result<T>, items: seq<string>)
    requires Answered(cmp, a) && Reported(cmp, b, r)
    requires Among(a, items) && Among(b, items)
    requires Unique(items) ==> NoSelfCalls(a) && NoSelfCalls(b)
    ensures Reported(cmp, a + b, r)
    ensures Among(a + b, items)
    ensures Unique(items) ==> NoSelfCalls(a + b)
  {
    ReportedAfter(cmp, a, b, r);
    var all := a + b;
    assert forall k :: |a| <= k < |all| ==> all[k] == b[k - |a|];
  }

  /** What one insertion leaves behind: the calls compare the inserted name
      with names already placed, so they are among `items`, and none of
      them compares a name with itself when the names are unique; on
      success the insertion state moves one name on. */
  lemma InsertProperties(items: seq<string>, cmp: Comparator, less: Less, calls: seq<Call>, result: seq<string>,
                         what: string, rest: seq<string>, insCalls: seq<Call>, inserted: Result<seq<string>>)
    requires Inserting(items, cmp, less, calls, result, [what] + rest)
    requires Probes(insCalls, what, result) && Reported(cmp, insCalls, inserted)
    requires inserted.Ok? ==> multiset(inserted.value) == multiset(result) + multiset{what}
    requires Decides(cmp, [what] + result) ==> inserted.Ok?
    requires Consistent(cmp, less, [what] + result) && OrderedBy(less, result) ==>
               inserted.Ok? && OrderedBy(less, inserted.value)
    ensures Among(calls + insCalls, items)
    ensures Unique(items) ==> NoSelfCalls(calls + insCalls)
    ensures Reported(cmp, calls + insCalls, inserted)
    ensures Decides(cmp, items) ==> inserted.Ok?
    ensures Consistent(cmp, less, items) ==> inserted.Ok?
    ensures inserted.Ok? ==> Inserting(items, cmp, less, calls + insCalls, inserted.value, rest)
  {
    MultisetPart(result, multiset([what] + rest), items);
    MultisetPart([what] + rest, multiset(result), items);
    assert what in [what] + rest;
    ConsistentPart(cmp, less, [what] + result, items);
    if Unique(items) {
      assert AtMostOnce(items, what);
      assert multiset(items)[what] == multiset(result)[what] + multiset([what] + rest)[what];
      assert what !in result;
    }
    LogConcat(cmp, calls, insCalls, inserted, items);
    if inserted.Ok? {
      AnsweredConcat(cmp, calls, insCalls);
    }
  }
}
