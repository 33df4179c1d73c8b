/** The search for a ref namespace that no pushed ref touches, and the disposable
    boundary refs created in it. */
module BoundaryPrefix {
  import opened Commands
  import opened Options
  import opened Ordering

  // ---------- Numbers padded to three digits ----------

  predicate IsDigit(c: char) {
    '0' <= c <= '9'
  }

  function Digit(d: nat): char
    requires d < 10
  {
    '0' + d as char
  }

  function Decimal(n: nat): (s: string)
    ensures s != [] && forall i :: 0 <= i < |s| ==> IsDigit(s[i])
  {
    if n < 10 then [Digit(n)] else Decimal(n / 10) + [Digit(n % 10)]
  }

  function Zeros(n: nat): (s: string)
    ensures |s| == n && forall i :: 0 <= i < n ==> s[i] == '0'
  {
    seq(n, i => '0')
  }

  /** At least three digits; more when the number needs them. */
  function Padded(n: nat): (s: string)
    ensures s != [] && forall i :: 0 <= i < |s| ==> IsDigit(s[i])
  {
    var s := Decimal(n);
    if |s| < 3 then Zeros(3 - |s|) + s else s
  }

  function Value(s: string): int {
    if s == [] then 0 else Value(s[..|s| - 1]) * 10 + (s[|s| - 1] as int - '0' as int)
  }

  lemma {:induction false} DecimalValue(n: nat)
    ensures Value(Decimal(n)) == n
  {
    if n >= 10 {
      DecimalValue(n / 10);
      assert Decimal(n)[..|Decimal(n)| - 1] == Decimal(n / 10);
    }
  }

  lemma {:induction false} LeadingZeros(n: nat, s: string)
    ensures Value(Zeros(n) + s) == Value(s)
    decreases |s|, n
  {
    if s == [] {
      if n > 0 {
        LeadingZeros(n - 1, s);
        assert (Zeros(n) + s)[..n - 1] == Zeros(n - 1) + s;
      } else {
        assert Zeros(n) + s == [];
      }
    } else {
      LeadingZeros(n, s[..|s| - 1]);
      assert (Zeros(n) + s)[..n + |s| - 1] == Zeros(n) + s[..|s| - 1];
    }
  }

  /** The padded format is read back as the number it prints. */
  lemma PaddedValue(n: nat)
    ensures Value(Padded(n)) == n
  {
    DecimalValue(n);
    if |Decimal(n)| < 3 {
      LeadingZeros(3 - |Decimal(n)|, Decimal(n));
    }
  }

  // ---------- Collisions ----------

  predicate HasPrefix(s: string, p: string) {
    |p| <= |s| && s[..|p|] == p
  }

  /** The same ref, or one a directory above the other. */
  predicate Collides(a: string, b: string) {
    a == b || HasPrefix(a, b + "/") || HasPrefix(b, a + "/")
  }

  /** `^refs/[^\x00-\x20~^:?*\\\[]+$`, the pattern commands have passed. */
  predicate ValidRefName(ref: string) {
    && |ref| > 5 && ref[..5] == "refs/"
    && forall i :: 5 <= i < |ref| ==> ref[i] > ' ' && ref[i] !in "~^:?*\\["
  }

  const STEM := "refs/display-prerequisite-"

  function Candidate(k: nat): string {
    STEM + Padded(k)
  }

  lemma NoSlashInNumber(k: nat, i: nat)
    requires |STEM| <= i < |Candidate(k)|
    ensures Candidate(k)[i] != '/'
  {
    assert Candidate(k)[i] == Padded(k)[i - |STEM|];
  }

  /** A candidate's one slash is the one after "refs". */
  lemma OneSlash(k: nat, i: nat)
    requires i < |Candidate(k)|
    ensures Candidate(k)[i] == '/' <==> i == 4
  {
    if i >= |STEM| { NoSlashInNumber(k, i); }
  }

  lemma PrefixEnds(s: string, p: string)
    requires HasPrefix(s, p + "/")
    ensures |p| < |s| && s[..|p|] == p && s[|p|] == '/'
  {
    assert (p + "/")[..|p|] == p && s[..|p|] == s[..|p| + 1][..|p|];
    assert s[|p|] == (p + "/")[|p|];
  }

  /** Only a ref named "refs" lies above a candidate. */
  lemma AboveIsRefs(ref: string, k: nat)
    ensures HasPrefix(Candidate(k), ref + "/") <==> ref == "refs"
  {
    if HasPrefix(Candidate(k), ref + "/") {
      PrefixEnds(Candidate(k), ref);
      OneSlash(k, |ref|);
      assert ref == STEM[..4];
    }
  }

  lemma CandidatesDiffer(j: nat, k: nat)
    requires Candidate(j) == Candidate(k)
    ensures j == k
  {
    assert Candidate(j)[|STEM|..] == Padded(j) && Candidate(k)[|STEM|..] == Padded(k);
    PaddedValue(j);
    PaddedValue(k);
  }

  lemma UnderIsThat(ref: string, j: nat, k: nat)
    requires ref == Candidate(j) || HasPrefix(ref, Candidate(j) + "/")
    requires ref == Candidate(k) || HasPrefix(ref, Candidate(k) + "/")
    requires |Candidate(j)| <= |Candidate(k)|
    ensures Candidate(j) == Candidate(k)
  {
    if HasPrefix(ref, Candidate(j) + "/") { PrefixEnds(ref, Candidate(j)); }
    if HasPrefix(ref, Candidate(k) + "/") { PrefixEnds(ref, Candidate(k)); }
    var c := Candidate(k);
    forall i | 4 < i < |c| ensures c[i] != '/' { OneSlash(k, i); }
    assert ref[..|c|] == c;
    assert forall i :: 0 <= i < |c| ==> c[i] == ref[i];
  }

  /** A ref other than "refs" is in the way of one candidate at most. */
  lemma BlocksOneAtMost(ref: string, j: nat, k: nat)
    requires ref != "refs" && Collides(ref, Candidate(j)) && Collides(ref, Candidate(k))
    ensures j == k
  {
    AboveIsRefs(ref, j);
    AboveIsRefs(ref, k);
    if |Candidate(j)| <= |Candidate(k)| { UnderIsThat(ref, j, k); } else { UnderIsThat(ref, k, j); }
    CandidatesDiffer(j, k);
  }

  // ---------- The pigeonhole ----------

  ghost predicate Blocks(cs: seq<ReceiveCommand>, k: nat) {
    exists i :: 0 <= i < |cs| && Collides(cs[i].ref, Candidate(k))
  }

  ghost function Blocked(cs: seq<ReceiveCommand>, limit: nat): set<nat> {
    set k: nat | k < limit && Blocks(cs, k)
  }

  ghost function BlockedBy(ref: string, limit: nat): set<nat> {
    set k: nat | k < limit && Collides(ref, Candidate(k))
  }

  lemma BlockedByOne(ref: string, limit: nat)
    requires ref != "refs"
    ensures |BlockedBy(ref, limit)| <= 1
  {
    if BlockedBy(ref, limit) != {} {
      var k :| k in BlockedBy(ref, limit);
      forall j | j in BlockedBy(ref, limit) ensures j == k { BlocksOneAtMost(ref, j, k); }
      assert BlockedBy(ref, limit) == {k};
    }
  }

  lemma BlocksByLast(cs: seq<ReceiveCommand>, k: nat)
    requires cs != [] && Blocks(cs, k)
    ensures Blocks(cs[..|cs| - 1], k) || Collides(cs[|cs| - 1].ref, Candidate(k))
  {
    var i :| 0 <= i < |cs| && Collides(cs[i].ref, Candidate(k));
    if i < |cs| - 1 { assert cs[..|cs| - 1][i] == cs[i]; }
  }

  lemma BlockedOneMore(cs: seq<ReceiveCommand>, limit: nat)
    requires cs != []
    ensures Blocked(cs, limit) <= Blocked(cs[..|cs| - 1], limit) + BlockedBy(cs[|cs| - 1].ref, limit)
  {
    forall k | k in Blocked(cs, limit)
      ensures k in Blocked(cs[..|cs| - 1], limit) + BlockedBy(cs[|cs| - 1].ref, limit)
    {
      BlocksByLast(cs, k);
    }
  }

  lemma {:induction false} BlockedCount(cs: seq<ReceiveCommand>, limit: nat)
    requires forall i :: 0 <= i < |cs| ==> cs[i].ref != "refs"
    ensures |Blocked(cs, limit)| <= |cs|
  {
    if cs == [] {
      assert Blocked(cs, limit) == {};
    } else {
      var front, ref := cs[..|cs| - 1], cs[|cs| - 1].ref;
      BlockedCount(front, limit);
      BlockedByOne(ref, limit);
      BlockedOneMore(cs, limit);
      SubsetCardinality(Blocked(cs, limit), Blocked(front, limit) + BlockedBy(ref, limit));
    }
  }

  lemma {:induction false} RangeSize(s: set<nat>, limit: nat)
    requires forall k: nat :: k in s <==> k < limit
    ensures |s| == limit
  {
    if limit > 0 {
      RangeSize(s - {limit - 1}, limit - 1);
    } else {
      assert s == {};
    }
  }

  /** With one candidate more than commands, one is free. */
  lemma SomeCandidateIsFree(cs: seq<ReceiveCommand>) returns (k: nat)
    requires forall i :: 0 <= i < |cs| ==> cs[i].ref != "refs"
    ensures k <= |cs| && !Blocks(cs, k)
  {
    BlockedCount(cs, |cs| + 1);
    if forall k: nat :: k < |cs| + 1 ==> Blocks(cs, k) {
      RangeSize(Blocked(cs, |cs| + 1), |cs| + 1);
    }
    k :| k <= |cs| && !Blocks(cs, k);
  }

  // ---------- The search ----------

  method AnyCollision(cs: seq<ReceiveCommand>, k: nat) returns (collides: bool)
    ensures collides <==> Blocks(cs, k)
  {
    var prefix := Candidate(k);
    collides := false;
    for i := 0 to |cs|
      invariant !collides
      invariant forall m :: 0 <= m < i ==> !Collides(cs[m].ref, prefix)
    {
      var ref := cs[i].ref;
      if ref == prefix || HasPrefix(ref, prefix + "/") || HasPrefix(prefix, ref + "/") {
        return true;
      }
    }
  }

  /** Finds the first free candidate. It fails only when some command names the
      ref "refs", which the ref pattern excludes. */
  method PrerequisiteBoundaryRefPrefix(cs: seq<ReceiveCommand>) returns (prefix: Option<string>)
    ensures prefix.None? <==> exists i :: 0 <= i < |cs| && cs[i].ref == "refs"
    ensures (forall i :: 0 <= i < |cs| ==> ValidRefName(cs[i].ref)) ==> prefix.Some?
    ensures prefix.Some? ==>
      && (exists k :: 0 <= k <= |cs| && prefix.value == Candidate(k) && forall j :: 0 <= j < k ==> Blocks(cs, j))
      && (forall i :: 0 <= i < |cs| ==> !Collides(cs[i].ref, prefix.value))
  {
    prefix := None;
    var candidate := 0;
    while candidate <= |cs| && prefix.None?
      invariant 0 <= candidate <= |cs| + 1
      invariant prefix.None? ==> forall j :: 0 <= j < candidate ==> Blocks(cs, j)
      invariant prefix.Some? ==> candidate <= |cs| && !Blocks(cs, candidate) && prefix.value == Candidate(candidate)
      invariant prefix.Some? ==> forall j :: 0 <= j < candidate ==> Blocks(cs, j)
      decreases |cs| + 1 - candidate, if prefix.None? then 1 else 0
    {
      var collides := AnyCollision(cs, candidate);
      if !collides {
        prefix := Some(Candidate(candidate));
      } else {
        candidate := candidate + 1;
      }
    }
    if i :| 0 <= i < |cs| && cs[i].ref == "refs" {
      assert prefix.Some? ==> !Collides(cs[i].ref, prefix.value);
      AboveIsRefs("refs", candidate);
    } else {
      var free := SomeCandidateIsFree(cs);
    }
  }

  // ---------- The boundary refs ----------

  function BoundaryRef(prefix: string, index: nat): string {
    prefix + "/" + Padded(index)
  }

  lemma LastSlash(prefix: string, index: nat)
    ensures forall i :: |prefix| < i < |BoundaryRef(prefix, index)| ==> BoundaryRef(prefix, index)[i] != '/'
  {
    forall i | |prefix| < i < |BoundaryRef(prefix, index)| ensures BoundaryRef(prefix, index)[i] != '/' {
      assert BoundaryRef(prefix, index)[i] == Padded(index)[i - |prefix| - 1];
    }
  }

  lemma UnderBoundaryRef(ref: string, prefix: string, index: nat)
    requires ref == BoundaryRef(prefix, index) || HasPrefix(ref, BoundaryRef(prefix, index) + "/")
    ensures HasPrefix(ref, prefix + "/")
  {
    var name := BoundaryRef(prefix, index);
    assert name[..|prefix| + 1] == prefix + "/";
    if ref != name {
      PrefixEnds(ref, name);
      assert ref[..|prefix| + 1] == name[..|prefix| + 1];
    }
  }

  lemma AboveBoundaryRef(ref: string, prefix: string, index: nat)
    requires HasPrefix(BoundaryRef(prefix, index), ref + "/")
    ensures ref == prefix || HasPrefix(prefix, ref + "/")
  {
    var name := BoundaryRef(prefix, index);
    PrefixEnds(name, ref);
    LastSlash(prefix, index);
    if |ref| < |prefix| {
      assert prefix[..|ref| + 1] == name[..|ref| + 1] == ref + "/";
    } else {
      assert name[..|prefix|] == prefix;
    }
  }

  /** No boundary ref equals a pushed ref, contains it or lies under it. */
  lemma BoundaryRefsStayApart(ref: string, prefix: string, index: nat)
    requires !Collides(ref, prefix)
    ensures !Collides(ref, BoundaryRef(prefix, index))
  {
    var name := BoundaryRef(prefix, index);
    if ref == name || HasPrefix(ref, name + "/") {
      UnderBoundaryRef(ref, prefix, index);
    } else if HasPrefix(name, ref + "/") {
      AboveBoundaryRef(ref, prefix, index);
    }
  }

  lemma NotUnderAnother(prefix: string, i: nat, j: nat)
    ensures !HasPrefix(BoundaryRef(prefix, i), BoundaryRef(prefix, j) + "/")
  {
    LastSlash(prefix, i);
    if HasPrefix(BoundaryRef(prefix, i), BoundaryRef(prefix, j) + "/") {
      PrefixEnds(BoundaryRef(prefix, i), BoundaryRef(prefix, j));
    }
  }

  /** Boundary refs for different roots never collide with one another. */
  lemma BoundaryRefsDiffer(prefix: string, i: nat, j: nat)
    ensures Collides(BoundaryRef(prefix, i), BoundaryRef(prefix, j)) <==> i == j
  {
    var a, b := BoundaryRef(prefix, i), BoundaryRef(prefix, j);
    NotUnderAnother(prefix, i, j);
    NotUnderAnother(prefix, j, i);
    if a == b {
      assert a[|prefix| + 1..] == Padded(i) && b[|prefix| + 1..] == Padded(j);
      PaddedValue(i);
      PaddedValue(j);
    }
  }
}
