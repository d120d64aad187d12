/** Shared vocabulary of the ranking engine: results and errors, comparator
    answers, the order on item names and the "no duplicates" check. */
module Common {

  /** The failures the engine raises or passes on. */
  datatype Error =
    | DuplicateItems          // 'No duplicates allowed in items to be ranked'
    | InvalidCount            // a negative item count given to the comparison bound
    | Thrown(message: string) // anything a comparator throws, passed on unchanged

  datatype Result<T> = Ok(value: T) | Err(error: Error)

  datatype Option<T> = None | Some(value: T)

  /** A comparator answer: 1 means the first argument belongs before the second. */
  type Bit = x: int | 0 <= x <= 1

  /** An awaited comparator call, seen as a total function of the ordered pair. */
  type Comparator = (string, string) -> Result<Bit>

  /** The string order used as tie-break key: lexicographic on characters,
      a proper prefix coming first. */
  predicate NameLess(a: string, b: string)
    decreases |a|
  {
    if |a| == 0 then |b| > 0
    else if |b| == 0 then false
    else if a[0] != b[0] then a[0] < b[0]
    else NameLess(a[1..], b[1..])
  }

  lemma {:induction false} NameLessIrreflexive(a: string)
    ensures !NameLess(a, a)
    decreases |a|
  {
    if |a| > 0 { NameLessIrreflexive(a[1..]); }
  }

  /** Exactly one of a < b, a == b, b < a holds. */
  lemma {:induction false} NameLessTrichotomy(a: string, b: string)
    ensures a == b || NameLess(a, b) || NameLess(b, a)
    ensures !(NameLess(a, b) && NameLess(b, a))
    decreases |a|
  {
    if |a| > 0 && |b| > 0 && a[0] == b[0] {
      NameLessTrichotomy(a[1..], b[1..]);
      if a[1..] == b[1..] {
        assert a == [a[0]] + a[1..] && b == [b[0]] + b[1..];
      }
    }
  }

  lemma {:induction false} NameLessTransitive(a: string, b: string, c: string)
    requires NameLess(a, b) && NameLess(b, c)
    ensures NameLess(a, c)
    decreases |a|
  {
    if |a| > 0 && a[0] == b[0] && b[0] == c[0] {
      NameLessTransitive(a[1..], b[1..], c[1..]);
    }
  }

  // ----- strict total orders, given as relations -----

  /** Name order is a strict total order on any names. */
  lemma NameLessStrictTotal(s: seq<string>)
    ensures StrictTotalOn(NameLess, s)
  {
    forall a | a in s ensures !NameLess(a, a) {
      NameLessIrreflexive(a);
    }
    forall a, b, c | a in s && b in s && c in s && NameLess(a, b) && NameLess(b, c) ensures NameLess(a, c) {
      NameLessTransitive(a, b, c);
    }
    forall a, b | a in s && b in s && a != b ensures NameLess(a, b) || NameLess(b, a) {
      NameLessTrichotomy(a, b);
    }
  }

  /** `less` is a strict total order on the values occurring in `s`:
      irreflexive, transitive, and any two different values are related. */
  ghost predicate StrictTotalOn<T>(less: (T, T) -> bool, s: seq<T>) {
    && (forall a :: a in s ==> !less(a, a))
    && (forall a, b, c :: a in s && b in s && c in s && less(a, b) && less(b, c) ==> less(a, c))
    && (forall a, b :: a in s && b in s && a != b ==> less(a, b) || less(b, a))
  }

  /** An order on some values is an order on any of them. */
  lemma StrictTotalOnPart<T>(less: (T, T) -> bool, part: seq<T>, whole: seq<T>)
    requires StrictTotalOn(less, whole) && forall x :: x in part ==> x in whole
    ensures StrictTotalOn(less, part)
  {
  }

  /** No later element is below an earlier one. */
  predicate OrderedBy<T>(less: (T, T) -> bool, s: seq<T>) {
    forall i, j :: 0 <= i < j < |s| ==> !less(s[j], s[i])
  }

  /** Under a strict total order, two ascending arrangements of the same
      values are the same sequence. */
  lemma {:induction false} OrderedUnique<T>(less: (T, T) -> bool, s: seq<T>, t: seq<T>)
    requires StrictTotalOn(less, s) && OrderedBy(less, s) && OrderedBy(less, t)
    requires multiset(s) == multiset(t)
    ensures s == t
    decreases |s|
  {
    assert |s| == |multiset(s)| == |multiset(t)| == |t|;
    if s != [] {
      var i := Position(t, s[0]);
      var j := Position(s, t[0]);
      assert t[0] in s;
      assert !less(t[0], s[0]) by { if j > 0 { assert !less(s[j], s[0]); } }
      assert !less(s[0], t[0]) by { if i > 0 { assert !less(t[i], t[0]); } }
      MultisetTail(s, t);
      StrictTotalOnPart(less, s[1..], s);
      OrderedUnique(less, s[1..], t[1..]);
      assert s == [s[0]] + s[1..] && t == [t[0]] + t[1..];
    }
  }

  /** Sequences with the same elements and the same first element have the
      same elements after it. */
  lemma MultisetTail<T>(s: seq<T>, t: seq<T>)
    requires s != [] && t != [] && s[0] == t[0] && multiset(s) == multiset(t)
    ensures multiset(s[1..]) == multiset(t[1..])
  {
    assert s == [s[0]] + s[1..] && t == [t[0]] + t[1..];
    assert multiset(s[1..]) == multiset(s) - multiset{s[0]};
    assert multiset(t[1..]) == multiset(t) - multiset{t[0]};
  }

  /** x! for x >= 1, and 1 for every x <= 0 (the loop `for (i=1; i<=x; i++) f*=i`). */
  function Factorial(x: int): (r: nat)
    ensures r >= 1
    decreases if x < 0 then 0 else x
  {
    if x <= 0 then 1 else x * Factorial(x - 1)
  }

  /** No item occurs twice. */
  predicate Distinct<T(==)>(s: seq<T>) {
    forall i, j :: 0 <= i < j < |s| ==> s[i] != s[j]
  }

  /** The set of the elements of a sequence (`new Set(items)`). */
  function ToSet<T>(s: seq<T>): set<T>
  {
    set x | x in s
  }

  /** `new Set(items).size != items.length` is exactly "items has a duplicate". */
  lemma {:induction false} SetSizeDetectsDuplicates<T>(s: seq<T>)
    ensures |ToSet(s)| <= |s|
    ensures |ToSet(s)| == |s| <==> Distinct(s)
  {
    if s == [] {
      assert ToSet(s) == {};
    } else {
      var t := s[1..];
      SetSizeDetectsDuplicates(t);
      assert ToSet(s) == ToSet(t) + {s[0]};
      if s[0] in t {
        assert ToSet(s) == ToSet(t);
        var j :| 0 <= j < |t| && t[j] == s[0];
        assert s[0] == s[j + 1];
      } else {
        assert |ToSet(s)| == |ToSet(t)| + 1;
        if Distinct(t) {
          forall i, j | 0 <= i < j < |s| ensures s[i] != s[j] {
            if i > 0 { assert s[i] == t[i - 1] && s[j] == t[j - 1]; }
            else { assert s[j] == t[j - 1]; }
          }
        } else {
          var i, j :| 0 <= i < j < |t| && t[i] == t[j];
          assert s[i + 1] == s[j + 1];
        }
      }
    }
  }

  /** A check of distinctness that evaluates on literal sequences. */
  predicate NoRepeats<T(==)>(s: seq<T>) {
    s == [] || (s[0] !in s[1..] && NoRepeats(s[1..]))
  }

  lemma {:induction false} NoRepeatsDistinct<T>(s: seq<T>)
    requires NoRepeats(s)
    ensures Distinct(s)
  {
    if s != [] {
      NoRepeatsDistinct(s[1..]);
      forall i, j | 0 <= i < j < |s| ensures s[i] != s[j] {
        if i == 0 { assert s[j] == s[1..][j - 1]; }
        else { assert s[i] == s[1..][i - 1] && s[j] == s[1..][j - 1]; }
      }
    }
  }

  /** f applied to every element, in order. */
  function MapSeq<A, B>(f: A -> B, s: seq<A>): (r: seq<B>)
    ensures |r| == |s|
  {
    if s == [] then [] else [f(s[0])] + MapSeq(f, s[1..])
  }

  lemma {:induction false} MapSeqIndex<A, B>(f: A -> B, s: seq<A>, k: nat)
    requires k < |s|
    ensures MapSeq(f, s)[k] == f(s[k])
  {
    if k > 0 {
      MapSeqIndex(f, s[1..], k - 1);
    }
  }

  lemma {:induction false} MapSeqConcat<A, B>(f: A -> B, s: seq<A>, u: seq<A>)
    ensures MapSeq(f, s + u) == MapSeq(f, s) + MapSeq(f, u)
  {
    if s == [] {
      assert s + u == u;
    } else {
      assert (s + u)[1..] == s[1..] + u;
      MapSeqConcat(f, s[1..], u);
    }
  }

  lemma MapSeqSnoc<A, B>(f: A -> B, s: seq<A>, x: A)
    ensures MapSeq(f, s + [x]) == MapSeq(f, s) + [f(x)]
  {
    MapSeqConcat(f, s, [x]);
    assert MapSeq(f, [x]) == [f(x)];
  }

  /** Mapping two arrangements of the same elements gives two arrangements
      of the same images. */
  lemma {:induction false} MapSeqPermutation<A, B>(f: A -> B, s: seq<A>, u: seq<A>)
    requires multiset(s) == multiset(u)
    ensures multiset(MapSeq(f, s)) == multiset(MapSeq(f, u))
    decreases |s|
  {
    if s == [] {
      assert u == [] by { assert |u| == |multiset(u)|; }
    } else {
      var k := Position(u, s[0]);
      var rest := u[..k] + u[k + 1..];
      MapSeqRemove(f, u, k);
      assert s == [s[0]] + s[1..];
      MapSeqPermutation(f, s[1..], rest);
    }
  }

  /** A position holding an element of the sequence. */
  lemma Position<A>(u: seq<A>, x: A) returns (k: nat)
    requires x in multiset(u)
    ensures k < |u| && u[k] == x
  {
    k :| 0 <= k < |u| && u[k] == x;
  }

  /** Taking out position k before or after mapping. */
  lemma MapSeqRemove<A, B>(f: A -> B, u: seq<A>, k: nat)
    requires k < |u|
    ensures multiset(u[..k] + u[k + 1..]) == multiset(u) - multiset{u[k]}
    ensures multiset(MapSeq(f, u)) == multiset(MapSeq(f, u[..k] + u[k + 1..])) + multiset{f(u[k])}
  {
    var a, b := u[..k], u[k + 1..];
    SplitAt(u, k);
    var fa, fb := MapSeq(f, a), MapSeq(f, b);
    assert MapSeq(f, [u[k]]) == [f(u[k])];
    MapSeqConcat(f, a, [u[k]]);
    MapSeqConcat(f, a + [u[k]], b);
    MapSeqConcat(f, a, b);
    assert MapSeq(f, u) == fa + [f(u[k])] + fb;
    assert MapSeq(f, a + b) == fa + fb;
    SplitCount(fa, f(u[k]), fb);
  }

  lemma SplitAt<A>(u: seq<A>, k: nat)
    requires k < |u|
    ensures u == u[..k] + [u[k]] + u[k + 1..]
  {
  }

  lemma SplitCount<B>(a: seq<B>, y: B, b: seq<B>)
    ensures multiset(a + [y] + b) == multiset(a + b) + multiset{y}
  {
  }
}
