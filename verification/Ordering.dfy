/** Orders and sorting shared by the receive planner: Go's byte-wise string
    order, what sort.Slice promises, and finite sequences seen as sets. */
module Ordering {

  function Elements<T>(s: seq<T>): set<T> {
    set x | x in s
  }

  ghost predicate Distinct<T>(s: seq<T>) {
    forall i, j :: 0 <= i < j < |s| ==> s[i] != s[j]
  }

  lemma {:induction false} DistinctCardinality<T>(s: seq<T>)
    requires Distinct(s)
    ensures |Elements(s)| == |s|
  {
    if s == [] {
    } else {
      DistinctCardinality(s[1..]);
      assert Elements(s) == {s[0]} + Elements(s[1..]);
    }
  }

  lemma {:induction false} SubsetCardinality<T>(a: set<T>, b: set<T>)
    requires a <= b
    ensures |a| <= |b|
    ensures |a| == |b| ==> a == b
  {
    if a == {} {
    } else {
      var x :| x in a;
      SubsetCardinality(a - {x}, b - {x});
    }
  }

  lemma ElementsOfAppend<T>(s: seq<T>, x: T)
    ensures Elements(s + [x]) == Elements(s) + {x}
  {}

  lemma ElementsOfPrefix<T>(s: seq<T>, i: nat)
    requires i < |s|
    ensures Elements(s[..i + 1]) == Elements(s[..i]) + {s[i]}
  {
    assert s[..i + 1] == s[..i] + [s[i]];
  }

  lemma MultisetElements<T>(s: seq<T>, t: seq<T>)
    requires multiset(s) == multiset(t)
    ensures |s| == |t|
    ensures forall x :: x in s <==> x in t
    ensures Elements(s) == Elements(t)
  {
    assert |multiset(s)| == |s| && |multiset(t)| == |t|;
    forall x ensures x in s <==> x in t {
      assert x in s <==> x in multiset(s);
      assert x in t <==> x in multiset(t);
    }
  }

  lemma {:induction false} DistinctByCount<T>(s: seq<T>)
    ensures Distinct(s) <==> forall x :: multiset(s)[x] <= 1
  {
    if s == [] {
    } else {
      var t := s[1..];
      DistinctByCount(t);
      assert s == [s[0]] + t;
      assert multiset(s) == multiset{s[0]} + multiset(t);
      if Distinct(s) {
        assert s[0] !in t;
        assert multiset(t)[s[0]] == 0;
        assert Distinct(t);
      } else {
        var i, j :| 0 <= i < j < |s| && s[i] == s[j];
        if i == 0 {
          assert s[j] == t[j - 1] && s[0] in multiset(t);
          assert multiset(s)[s[0]] >= 2;
        } else {
          assert t[i - 1] == t[j - 1];
          var x :| multiset(t)[x] > 1;
          assert multiset(s)[x] > 1;
        }
      }
    }
  }

  lemma MultisetDistinct<T>(s: seq<T>, t: seq<T>)
    requires multiset(s) == multiset(t)
    ensures Distinct(s) <==> Distinct(t)
  {
    DistinctByCount(s);
    DistinctByCount(t);
  }

  // ---------- Strings ----------

  /** Go compares strings byte by byte; a proper prefix is smaller. */
  predicate StringLess(a: string, b: string) {
    if b == [] then false
    else if a == [] then true
    else a[0] < b[0] || (a[0] == b[0] && StringLess(a[1..], b[1..]))
  }

  lemma {:induction false} StringLessIrreflexive(a: string)
    ensures !StringLess(a, a)
  {
    if a != [] {
      StringLessIrreflexive(a[1..]);
    }
  }

  lemma {:induction false} StringLessTransitive(a: string, b: string, c: string)
    requires StringLess(a, b) && StringLess(b, c)
    ensures StringLess(a, c)
  {
    if a != [] && a[0] == b[0] && b[0] == c[0] {
      StringLessTransitive(a[1..], b[1..], c[1..]);
    }
  }

  lemma {:induction false} StringLessTotal(a: string, b: string)
    ensures a == b || StringLess(a, b) || StringLess(b, a)
  {
    if a != [] && b != [] && a[0] == b[0] {
      StringLessTotal(a[1..], b[1..]);
      assert a == [a[0]] + a[1..] && b == [b[0]] + b[1..];
    }
  }

  lemma StringLessAsymmetric(a: string, b: string)
    requires StringLess(a, b)
    ensures !StringLess(b, a)
  {
    if StringLess(b, a) {
      StringLessTransitive(a, b, a);
      StringLessIrreflexive(a);
    }
  }

  lemma StringOrder()
    ensures StrictWeakOrder(StringLess)
  {
    forall a ensures !StringLess(a, a) { StringLessIrreflexive(a); }
    forall a, b, c | StringLess(a, b) && StringLess(b, c) ensures StringLess(a, c) {
      StringLessTransitive(a, b, c);
    }
    forall a, b, c | !StringLess(a, b) && !StringLess(b, c) ensures !StringLess(a, c) {
      StringLessTotal(a, b);
      StringLessTotal(b, c);
      if StringLess(a, c) && a != b && b != c {
        StringLessTransitive(b, a, c);
        StringLessTransitive(c, b, a);
        StringLessAsymmetric(b, c);
      }
    }
  }

  // ---------- What sort.Slice promises ----------

  ghost predicate StrictWeakOrder<T(!new)>(less: (T, T) -> bool) {
    && (forall x :: !less(x, x))
    && (forall x, y, z :: less(x, y) && less(y, z) ==> less(x, z))
    && (forall x, y, z :: !less(x, y) && !less(y, z) ==> !less(x, z))
  }

  /** No later element is smaller than an earlier one. */
  ghost predicate SortedBy<T>(less: (T, T) -> bool, s: seq<T>) {
    forall i, j :: 0 <= i < j < |s| ==> !less(s[j], s[i])
  }

  ghost predicate StrictlySorted<T>(less: (T, T) -> bool, s: seq<T>) {
    forall i, j :: 0 <= i < j < |s| ==> less(s[i], s[j])
  }

  function Insert<T>(less: (T, T) -> bool, s: seq<T>, x: T): (r: seq<T>)
    ensures multiset(r) == multiset(s) + multiset{x}
  {
    if s == [] then [x]
    else if less(x, s[0]) then [x] + s
    else
      assert s == [s[0]] + s[1..];
      [s[0]] + Insert(less, s[1..], x)
  }

  lemma {:induction false} InsertSorted<T(!new)>(less: (T, T) -> bool, s: seq<T>, x: T)
    requires StrictWeakOrder(less) && SortedBy(less, s)
    ensures SortedBy(less, Insert(less, s, x))
  {
    if s != [] && !less(x, s[0]) {
      var tail := Insert(less, s[1..], x);
      InsertSorted(less, s[1..], x);
      forall y | y in tail ensures !less(y, s[0]) {
        assert y in multiset(tail);
        if y != x {
          assert y in s[1..];
        }
      }
    } else if s != [] {
      forall y | y in s ensures !less(y, x) {
        assert y == s[0] || !less(y, s[0]);
      }
    }
  }

  /** sort.Slice as its callers may rely on it: some permutation without
      inversions. Ties may end up in any order, as the library sort is unstable. */
  method SortSlice<T(!new)>(less: (T, T) -> bool, s: seq<T>) returns (r: seq<T>)
    requires StrictWeakOrder(less)
    ensures multiset(r) == multiset(s)
    ensures SortedBy(less, r)
  {
    r := [];
    for i := 0 to |s|
      invariant multiset(r) == multiset(s[..i])
      invariant SortedBy(less, r)
    {
      InsertSorted(less, r, s[i]);
      assert s[..i + 1] == s[..i] + [s[i]];
      r := Insert(less, r, s[i]);
    }
    assert s[..|s|] == s;
  }

  lemma SortedFirst<T(!new)>(less: (T, T) -> bool, s: seq<T>, r: seq<T>)
    requires StrictlySorted(less, s) && SortedBy(less, r) && multiset(s) == multiset(r) && s != []
    ensures r != [] && s[0] == r[0]
  {
    MultisetElements(s, r);
    assert r[0] in s && s[0] in r;
    var k :| 0 <= k < |s| && s[k] == r[0];
    var m :| 0 <= m < |r| && r[m] == s[0];
    assert m == 0 || !less(r[m], r[0]);
    assert k == 0 || less(s[0], s[k]);
  }

  lemma MultisetTail<T>(s: seq<T>)
    requires s != []
    ensures multiset(s[1..]) == multiset(s) - multiset{s[0]}
  {
    assert s == [s[0]] + s[1..];
  }

  /** Two sorted arrangements agree when one of them has no ties. */
  lemma {:induction false} SortedUnique<T(!new)>(less: (T, T) -> bool, s: seq<T>, r: seq<T>)
    requires StrictlySorted(less, s) && SortedBy(less, r) && multiset(s) == multiset(r)
    ensures s == r
  {
    if s == [] {
      assert |multiset(r)| == 0;
    } else {
      SortedFirst(less, s, r);
      MultisetTail(s);
      MultisetTail(r);
      SortedUnique(less, s[1..], r[1..]);
      assert s == [s[0]] + s[1..] && r == [r[0]] + r[1..];
    }
  }

  /** A sorted set of strings has exactly one strictly increasing listing. */
  lemma SortedListingUnique(s: seq<string>, t: seq<string>)
    requires StrictlySorted(StringLess, s) && StrictlySorted(StringLess, t)
    requires Elements(s) == Elements(t)
    ensures s == t
  {
    StrictlySortedDistinct(s);
    StrictlySortedDistinct(t);
    SameElementsSameMultiset(s, t);
    forall i, j | 0 <= i < j < |t| ensures !StringLess(t[j], t[i]) {
      StringLessAsymmetric(t[i], t[j]);
    }
    SortedUnique(StringLess, s, t);
  }

  lemma StrictlySortedDistinct(s: seq<string>)
    requires StrictlySorted(StringLess, s)
    ensures Distinct(s)
  {
    forall i, j | 0 <= i < j < |s| ensures s[i] != s[j] {
      StringLessIrreflexive(s[i]);
    }
  }

  lemma SameElementsSameMultiset<T>(s: seq<T>, t: seq<T>)
    requires Distinct(s) && Distinct(t) && Elements(s) == Elements(t)
    ensures multiset(s) == multiset(t)
  {
    DistinctByCount(s);
    DistinctByCount(t);
    forall x ensures multiset(s)[x] == multiset(t)[x] {
      assert x in Elements(s) <==> x in Elements(t);
      assert x in multiset(s) <==> x in s;
      assert x in multiset(t) <==> x in t;
    }
  }

  lemma SortedDistinctStrict(s: seq<string>)
    requires SortedBy(StringLess, s) && Distinct(s)
    ensures StrictlySorted(StringLess, s)
  {
    forall i, j | 0 <= i < j < |s| ensures StringLess(s[i], s[j]) {
      StringLessTotal(s[i], s[j]);
    }
  }

  // ---------- Object ids ----------

  predicate LowerHex(c: char) {
    '0' <= c <= '9' || 'a' <= c <= 'f'
  }

  predicate ValidOid(oid: string) {
    |oid| == 40 && forall i :: 0 <= i < |oid| ==> LowerHex(oid[i])
  }

  const MAX_CLOSURE_OBJECTS := 100_000

  /** A canonical id set: valid ids, strictly increasing, within the object bound. */
  ghost predicate CanonicalOids(values: seq<string>, allowEmpty: bool) {
    && (allowEmpty || values != [])
    && |values| <= MAX_CLOSURE_OBJECTS
    && (forall i :: 0 <= i < |values| ==> ValidOid(values[i]))
    && StrictlySorted(StringLess, values)
  }

  /** The next id keeps the list strictly increasing exactly when it is greater
      than the one before it. */
  lemma NextInOrder(values: seq<string>, i: nat)
    requires i < |values| && StrictlySorted(StringLess, values[..i])
    ensures StrictlySorted(StringLess, values[..i + 1]) <==> i == 0 || StringLess(values[i - 1], values[i])
  {
    var front, oid := values[..i], values[i];
    assert values[..i + 1] == front + [oid];
    if i > 0 && StringLess(values[i - 1], oid) {
      forall k | 0 <= k < i ensures StringLess(front[k], oid) {
        if k < i - 1 { StringLessTransitive(front[k], front[i - 1], oid); }
      }
    }
    if i > 0 && StrictlySorted(StringLess, values[..i + 1]) {
      assert StringLess(values[..i + 1][i - 1], values[..i + 1][i]);
    }
  }

  lemma SortedPrefix(values: seq<string>, i: nat)
    requires i <= |values| && StrictlySorted(StringLess, values)
    ensures StrictlySorted(StringLess, values[..i])
  {}

  lemma GreaterIff(a: string, b: string)
    ensures StringLess(a, b) <==> !(b == a || StringLess(b, a))
  {
    StringLessTotal(a, b);
    StringLessIrreflexive(a);
    if StringLess(a, b) { StringLessAsymmetric(a, b); }
  }

  method ValidateSortedUniqueOids(values: seq<string>, allowEmpty: bool) returns (ok: bool)
    ensures ok <==> CanonicalOids(values, allowEmpty)
  {
    if (!allowEmpty && |values| == 0) || |values| > MAX_CLOSURE_OBJECTS {
      return false;
    }
    var prior := "";
    for i := 0 to |values|
      invariant forall k :: 0 <= k < i ==> ValidOid(values[k])
      invariant StrictlySorted(StringLess, values[..i])
      invariant prior == if i == 0 then "" else values[i - 1]
    {
      var oid := values[i];
      NextInOrder(values, i);
      GreaterIff(prior, oid);
      if !ValidOid(oid) || (prior != "" && (oid == prior || StringLess(oid, prior))) {
        if CanonicalOids(values, allowEmpty) { SortedPrefix(values, i + 1); }
        return false;
      }
      prior := oid;
    }
    assert values[..|values|] == values;
    ok := true;
  }
}
