/** The comparators the tests are written against: one that must never be
    called, one that follows a list, one that looks answers up in a table,
    and a monitor that refuses self-comparisons, repeated pairs and too many
    calls. */
module TestUtils {
  import opened Common

  type Call = (string, string)

  /** `failComp`: every call fails. */
  function FailComp(a: string, b: string): (r: Result<Bit>)
    ensures r.Err? && r.error == Thrown("I shouldn't be called in this test")
  {
    Err(Thrown("I shouldn't be called in this test"))
  }

  // ----- makeSimpleComp -----

  /** `items.indexOf(x)`: the first position of x, or -1 when x is absent. */
  function IndexOf(items: seq<string>, x: string): (r: int)
    ensures -1 <= r < |items|
    ensures r == -1 <==> x !in items
    ensures r >= 0 ==> items[r] == x && x !in items[..r]
  {
    if items == [] then -1
    else if items[0] == x then 0
    else
      var k := IndexOf(items[1..], x);
      assert k >= 0 ==> items[..k + 1] == [items[0]] + items[1..][..k];
      if k == -1 then -1 else k + 1
  }

  /** x first occurs in `items` before y does (an absent name counts as
      occurring before every listed one). */
  predicate FirstBefore(items: seq<string>, x: string, y: string) {
    IndexOf(items, x) < IndexOf(items, y)
  }

  /** `makeSimpleComp(items)([a, b])`: 0 exactly when a occurs after b in
      the list, 1 otherwise; it never fails. */
  function SimpleAnswer(items: seq<string>, a: string, b: string): (r: Result<Bit>)
    ensures r.Ok?
    ensures r.value == 0 <==> FirstBefore(items, b, a)
  {
    Ok(if IndexOf(items, a) > IndexOf(items, b) then 0 else 1)
  }

  /** `makeSimpleComp(items)`: a comparator that never fails and answers
      0 exactly when a occurs after b in the list. */
  function MakeSimpleComp(items: seq<string>): (c: Comparator)
    ensures forall a, b :: c(a, b).Ok? && (c(a, b).value == 0 <==> FirstBefore(items, b, a))
  {
    (a, b) => SimpleAnswer(items, a, b)
  }

  /** Two different names of the list get opposite answers in the two
      orders. */
  lemma SimpleOpposite(items: seq<string>, a: string, b: string)
    requires a in items && b in items && a != b
    ensures SimpleAnswer(items, a, b).value + SimpleAnswer(items, b, a).value == 1
  {
    var i, j := IndexOf(items, a), IndexOf(items, b);
    assert items[i] == a && items[j] == b;
  }

  /** On the names of a list without repeats, the answer is 1 exactly when
      a stands before b. */
  lemma SimpleFollowsList(items: seq<string>, i: nat, j: nat)
    requires Distinct(items) && i < |items| && j < |items|
    ensures SimpleAnswer(items, items[i], items[j]).value == if j < i then 0 else 1
  {
    FirstIndex(items, i);
    FirstIndex(items, j);
  }

  lemma FirstIndex(items: seq<string>, i: nat)
    requires Distinct(items) && i < |items|
    ensures IndexOf(items, items[i]) == i
  {
    var k := IndexOf(items, items[i]);
    assert items[k] == items[i];
  }

  // ----- makeCustomComp -----

  /** The table key of a pair: the two names in name order, joined by a NUL
      character. */
  function Key(a: string, b: string): string {
    if NameLess(b, a) then b + ['\0'] + a else a + ['\0'] + b
  }

  /** `makeCustomComp(table)([a, b])`: look the pair up under its key and
      flip the stored answer when the arguments came in descending name
      order; a pair missing from the table fails with a message naming
      the two arguments. */
  function CustomAnswer(table: map<string, Bit>, a: string, b: string): (r: Result<Bit>)
    ensures r.Err? <==> Key(a, b) !in table
    ensures r.Err? ==> r.error == Thrown("Unhandled comparison a=" + a + " b=" + b)
    ensures r.Ok? && !NameLess(b, a) ==> r.value == table[a + ['\0'] + b]
    ensures r.Ok? && NameLess(b, a) ==> r.value == 1 - table[b + ['\0'] + a]
  {
    var swap := NameLess(b, a);
    var k := if swap then b + ['\0'] + a else a + ['\0'] + b;
    if k in table then
      Ok(if swap then (if table[k] != 0 then 0 else 1) else table[k])
    else
      Err(Thrown("Unhandled comparison a=" + a + " b=" + b))
  }

  /** `makeCustomComp(table)`: a comparator that fails exactly on the pairs
      missing from the table and otherwise answers from it, flipped for
      names in descending order. */
  function MakeCustomComp(table: map<string, Bit>): (c: Comparator)
    ensures forall a, b :: c(a, b).Err? <==> Key(a, b) !in table
    ensures forall a, b :: Key(a, b) in table ==>
              c(a, b) == Ok(if NameLess(b, a) then 1 - table[Key(a, b)] else table[Key(a, b)])
  {
    (a, b) => CustomAnswer(table, a, b)
  }

  /** Both orders of two different names use the same key, so either both
      fail or their answers add up to 1. */
  lemma CustomOpposite(table: map<string, Bit>, a: string, b: string)
    requires a != b
    ensures Key(a, b) == Key(b, a)
    ensures CustomAnswer(table, a, b).Ok? <==> CustomAnswer(table, b, a).Ok?
    ensures CustomAnswer(table, a, b).Ok? ==>
              CustomAnswer(table, a, b).value + CustomAnswer(table, b, a).value == 1
  {
    NameLessTrichotomy(a, b);
  }

  // ----- testComp -----

  /** `n` in decimal, as a template string shows it. */
  function Decimal(n: nat): (r: string)
    ensures |r| >= 1 && forall k :: 0 <= k < |r| ==> '0' <= r[k] <= '9'
    decreases n
  {
    if n < 10 then [Digit(n)] else Decimal(n / 10) + [Digit(n % 10)]
  }

  function Digit(d: nat): (r: char)
    requires d < 10
    ensures '0' <= r <= '9' && r as int - '0' as int == d
  {
    ('0' as int + d) as char
  }

  /** Reading the digits back. */
  function DecimalValue(s: string): int
    decreases |s|
  {
    if s == [] then 0 else 10 * DecimalValue(s[..|s| - 1]) + (s[|s| - 1] as int - '0' as int)
  }

  lemma {:induction false} DecimalRoundTrip(n: nat)
    ensures DecimalValue(Decimal(n)) == n
    decreases n
  {
    if n >= 10 {
      DecimalRoundTrip(n / 10);
      var s := Decimal(n);
      assert s[..|s| - 1] == Decimal(n / 10);
    }
  }

  /** The pairs a pair map records: (a, b) for every b under a. */
  function Recorded(pairMap: map<string, set<string>>): set<Call> {
    set a, b | a in pairMap && b in pairMap[a] :: (a, b)
  }

  /** `pairMap.get(a)?.has(b)`. */
  predicate Has(pairMap: map<string, set<string>>, a: string, b: string) {
    a in pairMap && b in pairMap[a]
  }

  function Min(x: int, y: int): int {
    if x <= y then x else y
  }

  function Max(x: int, y: int): int {
    if x >= y then x else y
  }

  /** What every call keeps: the count is the number of recorded pairs,
      no name is recorded against itself, no pair is recorded in both
      orders, and the log holds recorded pairs, one per call that came
      within the limit. */
  ghost predicate Monitored(callCount: int, pairMap: map<string, set<string>>, log: seq<Call>,
                            logging: bool, maxCalls: int) {
    && callCount == |Recorded(pairMap)|
    && (forall a | a in pairMap :: a !in pairMap[a])
    && (forall a, b | Has(pairMap, a, b) :: !Has(pairMap, b, a))
    && (forall k | 0 <= k < |log| :: log[k] in Recorded(pairMap))
    && |log| == (if logging then Min(callCount, Max(maxCalls, 0)) else 0)
  }

  /** The map with b recorded under a: added to a's set, or a new set {b}
      when a has none yet. */
  function Record(pairMap: map<string, set<string>>, a: string, b: string): map<string, set<string>> {
    pairMap[a := (if a in pairMap then pairMap[a] else {}) + {b}]
  }

  /** A call on a new pair of different names keeps the invariant, whether
      or not it comes within the limit. */
  lemma RecordKeeps(callCount: int, pairMap: map<string, set<string>>, log: seq<Call>,
                    logging: bool, maxCalls: int, a: string, b: string)
    requires Monitored(callCount, pairMap, log, logging, maxCalls)
    requires a != b && !Has(pairMap, a, b) && !Has(pairMap, b, a)
    ensures Monitored(callCount + 1, Record(pairMap, a, b),
                      if logging && callCount + 1 <= maxCalls then log + [(a, b)] else log, logging, maxCalls)
  {
    var next := Record(pairMap, a, b);
    var later := if logging && callCount + 1 <= maxCalls then log + [(a, b)] else log;
    RecordOne(pairMap, a, b);
    forall x | x in next ensures x !in next[x] {
      assert x != a ==> next[x] == pairMap[x];
    }
    forall x, y | Has(next, x, y) ensures !Has(next, y, x) {
      InRecorded(next, x, y);
      InRecorded(pairMap, x, y);
      InRecorded(next, y, x);
      InRecorded(pairMap, y, x);
    }
    forall k | 0 <= k < |later| ensures later[k] in Recorded(next) {
      assert k < |log| ==> later[k] == log[k];
    }
    LogLength(callCount, |log|, |later|, logging, maxCalls);
  }

  /** The log grows by one exactly when logging and within the limit. */
  lemma LogLength(callCount: int, before: int, after: int, logging: bool, maxCalls: int)
    requires callCount >= 0 && before == (if logging then Min(callCount, Max(maxCalls, 0)) else 0)
    requires after == before + (if logging && callCount + 1 <= maxCalls then 1 else 0)
    ensures after == (if logging then Min(callCount + 1, Max(maxCalls, 0)) else 0)
  {
  }

  /** `testComp(c, maxCalls, log)`: the wrapped comparator with its state. */
  class TestComp {
    const inner: Comparator
    const maxCalls: int
    const logging: bool
    var callCount: int
    var pairMap: map<string, set<string>>
    var log: seq<Call>

    /** `Monitored` on the current fields. */
    ghost predicate Valid()
      reads this
    {
      Monitored(callCount, pairMap, log, logging, maxCalls)
    }

    constructor (c: Comparator, maxCalls: int, logging: bool)
      ensures Valid()
      ensures inner == c && this.maxCalls == maxCalls && this.logging == logging
      ensures callCount == 0 && pairMap == map[] && log == []
    {
      inner := c;
      this.maxCalls := maxCalls;
      this.logging := logging;
      callCount := 0;
      pairMap := map[];
      log := [];
      new;
      assert Recorded(pairMap) == {};
    }

    /** One call `[a, b]`: refuse a == b, refuse a pair already seen in
        either order, record the pair and count the call, refuse once the
        count passes `maxCalls`, and otherwise log the pair and forward the
        inner comparator's answer. */
    method Call(a: string, b: string) returns (r: Result<Bit>)
      requires Valid()
      modifies this
      ensures Valid()
      ensures a == b ==>
                r == Err(Thrown("a and b may not be equal ('" + a + "')")) && unchanged(this)
      ensures a != b && (Has(old(pairMap), a, b) || Has(old(pairMap), b, a)) ==>
                r == Err(Thrown("duplicate comparison of '" + a + "' and '" + b + "'")) && unchanged(this)
      ensures a != b && !Has(old(pairMap), a, b) && !Has(old(pairMap), b, a) ==>
                && pairMap == Record(old(pairMap), a, b)
                && callCount == old(callCount) + 1
                && (callCount > maxCalls ==>
                      r == Err(Thrown("too many Comparator calls (" + Decimal(callCount) + ")")) && log == old(log))
                && (callCount <= maxCalls ==>
                      r == inner(a, b) && log == old(log) + (if logging then [(a, b)] else []))
    {
      if a == b {
        return Err(Thrown("a and b may not be equal ('" + a + "')"));
      }
      if Has(pairMap, a, b) || Has(pairMap, b, a) {
        return Err(Thrown("duplicate comparison of '" + a + "' and '" + b + "'"));
      }
      RecordKeeps(callCount, pairMap, log, logging, maxCalls, a, b);
      pairMap := Record(pairMap, a, b);
      callCount := callCount + 1;
      if callCount > maxCalls {
        return Err(Thrown("too many Comparator calls (" + Decimal(callCount) + ")"));
      }
      if logging {
        log := log + [(a, b)];
      }
      r := inner(a, b);
    }
  }

  lemma InRecorded(pairMap: map<string, set<string>>, x: string, y: string)
    ensures (x, y) in Recorded(pairMap) <==> Has(pairMap, x, y)
  {
    if Has(pairMap, x, y) {
      assert (x, y) in Recorded(pairMap);
    }
  }

  /** Recording a new pair adds exactly that pair. */
  lemma RecordOne(pairMap: map<string, set<string>>, a: string, b: string)
    requires !Has(pairMap, a, b)
    ensures Recorded(Record(pairMap, a, b)) == Recorded(pairMap) + {(a, b)}
    ensures |Recorded(Record(pairMap, a, b))| == |Recorded(pairMap)| + 1
  {
    var next := Record(pairMap, a, b);
    RecordedGrows(pairMap, next, a, b);
    InRecorded(pairMap, a, b);
    PlusOne(Recorded(pairMap), Recorded(next), (a, b));
  }

  lemma RecordedGrows(pairMap: map<string, set<string>>, next: map<string, set<string>>, a: string, b: string)
    requires next == Record(pairMap, a, b)
    ensures Recorded(next) == Recorded(pairMap) + {(a, b)}
  {
    forall p ensures p in Recorded(next) <==> p in Recorded(pairMap) + {(a, b)} {
      InRecorded(next, p.0, p.1);
      InRecorded(pairMap, p.0, p.1);
    }
  }

  lemma PlusOne<X>(s: set<X>, t: set<X>, x: X)
    requires x !in s && t == s + {x}
    ensures |t| == |s| + 1
  {
  }

  // ----- the cases the tests of these helpers check -----

  /** `makeSimpleComp(['A','B','C'])` on the six ordered pairs. */
  lemma SimpleCompOnThree()
    ensures var items := ["A", "B", "C"];
            && MakeSimpleComp(items)("A", "B") == Ok(1) && MakeSimpleComp(items)("A", "C") == Ok(1)
            && MakeSimpleComp(items)("B", "A") == Ok(0) && MakeSimpleComp(items)("B", "C") == Ok(1)
            && MakeSimpleComp(items)("C", "A") == Ok(0) && MakeSimpleComp(items)("C", "B") == Ok(0)
  {
    var items := ["A", "B", "C"];
    forall i: nat, j: nat | i < 3 && j < 3
      ensures SimpleAnswer(items, items[i], items[j]).value == if j < i then 0 else 1
    {
      SimpleFollowsList(items, i, j);
    }
    assert items[0] == "A" && items[1] == "B" && items[2] == "C";
  }

  /** `makeCustomComp({'A\0B': 0, 'A\0C': 1, 'B\0C': 0})` on the six
      ordered pairs. */
  lemma CustomCompOnThree()
    ensures var table := map["A\0B" := 0, "A\0C" := 1, "B\0C" := 0];
            && MakeCustomComp(table)("A", "B") == Ok(0) && MakeCustomComp(table)("B", "A") == Ok(1)
            && MakeCustomComp(table)("A", "C") == Ok(1) && MakeCustomComp(table)("C", "A") == Ok(0)
            && MakeCustomComp(table)("B", "C") == Ok(0) && MakeCustomComp(table)("C", "B") == Ok(1)
  {
    assert NameLess("A", "B") && NameLess("A", "C") && NameLess("B", "C");
    assert !NameLess("B", "A") && !NameLess("C", "A") && !NameLess("C", "B");
    assert "A" + ['\0'] + "B" == "A\0B";
    assert "A" + ['\0'] + "C" == "A\0C";
    assert "B" + ['\0'] + "C" == "B\0C";
  }

  /** A monitor refuses the second comparison of a pair, in either order,
      and passes the first one on. */
  method DuplicateRefused(c: Comparator) returns (first: Result<Bit>, again: Result<Bit>, reversed: Result<Bit>)
    ensures first == c("A", "B")
    ensures again == Err(Thrown("duplicate comparison of 'A' and 'B'"))
    ensures reversed == Err(Thrown("duplicate comparison of 'B' and 'A'"))
  {
    assert "A"[0] != "B"[0];
    var t := new TestComp(c, 10, true);
    first := t.Call("A", "B");
    again := t.Call("A", "B");
    reversed := t.Call("B", "A");
    assert "duplicate comparison of '" + "A" + "' and '" + "B" + "'" == "duplicate comparison of 'A' and 'B'";
    assert "duplicate comparison of '" + "B" + "' and '" + "A" + "'" == "duplicate comparison of 'B' and 'A'";
  }

  /** With a limit of one call, the second new pair is refused with the
      count in the message. */
  method LimitReached(c: Comparator) returns (first: Result<Bit>, second: Result<Bit>, logged: seq<Call>)
    ensures first == c("A", "B")
    ensures second == Err(Thrown("too many Comparator calls (2)"))
    ensures logged == [("A", "B")]
  {
    assert "A"[0] != "B"[0] && "A"[0] != "C"[0] && "B" != "C";
    var t := new TestComp(c, 1, true);
    first := t.Call("A", "B");
    second := t.Call("A", "C");
    logged := t.log;
    assert Decimal(2) == "2";
    assert "too many Comparator calls (" + "2" + ")" == "too many Comparator calls (2)";
  }
}
