/** The binary heap with a caller's comparator: the sift loops against their
    specification functions, and what those functions keep. */
module Heap {
  import opened Options

  // ---------- Comparators and heap order ----------

  /** The comparator's contract: signs agree when swapped, and "not before" is
      transitive. Equivalent items may differ. */
  ghost predicate TotalPreorder<T(!new)>(cmp: (T, T) -> int) {
    && (forall x, y :: cmp(x, y) < 0 <==> cmp(y, x) > 0)
    && (forall x, y, z :: cmp(x, y) >= 0 && cmp(y, z) >= 0 ==> cmp(x, z) >= 0)
  }

  function Parent(j: nat): nat
    requires j > 0
  {
    (j - 1) / 2
  }

  /** Item `j` does not come before its parent. */
  predicate Under<T>(cmp: (T, T) -> int, a: seq<T>, j: nat) {
    0 < j < |a| ==> cmp(a[j], a[Parent(j)]) >= 0
  }

  /** Heap order among the nodes from `low` on and their children. */
  ghost predicate HeapFrom<T>(cmp: (T, T) -> int, a: seq<T>, low: nat) {
    forall j: nat :: j > 0 && Parent(j) >= low ==> Under(cmp, a, j)
  }

  ghost predicate IsHeap<T>(cmp: (T, T) -> int, a: seq<T>) {
    HeapFrom(cmp, a, 0)
  }

  // ---------- The sift loops as functions ----------

  function Swapped<T>(a: seq<T>, i: nat, j: nat): (b: seq<T>)
    requires i < |a| && j < |a|
    ensures |b| == |a| && multiset(b) == multiset(a)
  {
    a[i := a[j]][j := a[i]]
  }

  /** The first of node `i` and its children; ties keep the earlier one. */
  function Best<T>(cmp: (T, T) -> int, a: seq<T>, i: nat): (best: nat)
    requires i < |a|
    ensures best < |a| && (best == i || (best > 0 && Parent(best) == i))
  {
    var l, r := i * 2 + 1, i * 2 + 2;
    var first := if l < |a| && cmp(a[l], a[i]) < 0 then l else i;
    if r < |a| && cmp(a[r], a[first]) < 0 then r else first
  }

  function SiftedDown<T>(cmp: (T, T) -> int, a: seq<T>, i: nat): (b: seq<T>)
    requires i < |a|
    ensures |b| == |a| && multiset(b) == multiset(a)
    decreases |a| - i
  {
    var best := Best(cmp, a, i);
    if best == i then a else SiftedDown(cmp, Swapped(a, i, best), best)
  }

  function SiftedUp<T>(cmp: (T, T) -> int, a: seq<T>, i: nat): (b: seq<T>)
    requires i < |a|
    ensures |b| == |a| && multiset(b) == multiset(a)
    decreases i
  {
    if i > 0 && cmp(a[i], a[Parent(i)]) < 0 then SiftedUp(cmp, Swapped(a, i, Parent(i)), Parent(i)) else a
  }

  /** The nodes below `k` sifted down, last first. */
  function Heapified<T>(cmp: (T, T) -> int, a: seq<T>, k: nat): (b: seq<T>)
    requires k <= |a|
    ensures |b| == |a| && multiset(b) == multiset(a)
    decreases k
  {
    if k == 0 then a else Heapified(cmp, SiftedDown(cmp, a, k - 1), k - 1)
  }

  function Pushed<T>(cmp: (T, T) -> int, a: seq<T>, v: T): seq<T> {
    SiftedUp(cmp, a + [v], |a|)
  }

  function Popped<T>(cmp: (T, T) -> int, a: seq<T>): (b: seq<T>)
    requires a != []
    ensures |b| == |a| - 1
  {
    var rest := a[..|a| - 1];
    if rest == [] then [] else SiftedDown(cmp, rest[0 := a[|a| - 1]], 0)
  }

  // ---------- Sifting restores the order ----------

  /** Heap order from `low` on, except that node `i` may come after its
      children; those still do not come before its parent. */
  ghost predicate HoleAt<T>(cmp: (T, T) -> int, a: seq<T>, low: nat, i: nat) {
    && (forall j: nat :: j > 0 && Parent(j) >= low && Parent(j) != i ==> Under(cmp, a, j))
    && (i > low && Parent(i) >= low ==>
          forall j: nat :: 0 < j < |a| && Parent(j) == i ==> cmp(a[j], a[Parent(i)]) >= 0)
  }

  lemma BestIsFirst<T(!new)>(cmp: (T, T) -> int, a: seq<T>, i: nat, j: nat)
    requires TotalPreorder(cmp) && i < |a|
    requires 0 < j < |a| && Parent(j) == i
    ensures cmp(a[j], a[Best(cmp, a, i)]) >= 0
  {
    assert j == i * 2 + 1 || j == i * 2 + 2;
    assert cmp(a[j], a[j]) == 0;
  }

  lemma HoleMovesDown<T(!new)>(cmp: (T, T) -> int, a: seq<T>, low: nat, i: nat)
    requires TotalPreorder(cmp) && low <= i < |a| && HoleAt(cmp, a, low, i) && Best(cmp, a, i) != i
    ensures HoleAt(cmp, Swapped(a, i, Best(cmp, a, i)), low, Best(cmp, a, i))
  {
    var best := Best(cmp, a, i);
    var b := Swapped(a, i, best);
    BestIsFirst(cmp, a, i, best);
    assert cmp(a[best], a[i]) < 0;
    forall j: nat | j > 0 && Parent(j) >= low && Parent(j) != best ensures Under(cmp, b, j) {
      if 0 < j < |a| {
        if Parent(j) == i {
          BestIsFirst(cmp, a, i, j);
        } else {
          assert Under(cmp, a, j);
        }
      }
    }
    forall j: nat | 0 < j < |a| && Parent(j) == best ensures cmp(b[j], b[i]) >= 0 {
      assert Under(cmp, a, j);
    }
  }

  lemma {:induction false} SiftDownRestores<T(!new)>(cmp: (T, T) -> int, a: seq<T>, low: nat, i: nat)
    requires TotalPreorder(cmp) && low <= i < |a| && HoleAt(cmp, a, low, i)
    ensures HeapFrom(cmp, SiftedDown(cmp, a, i), low)
    decreases |a| - i
  {
    var best := Best(cmp, a, i);
    if best == i {
      forall j: nat | j > 0 && Parent(j) >= low ensures Under(cmp, a, j) {
        if j < |a| && Parent(j) == i { BestIsFirst(cmp, a, i, j); }
      }
    } else {
      HoleMovesDown(cmp, a, low, i);
      SiftDownRestores(cmp, Swapped(a, i, best), low, best);
    }
  }

  /** Heap order except that node `i` may come before its parent; its children do
      not come before that parent. */
  ghost predicate LooseAt<T>(cmp: (T, T) -> int, a: seq<T>, i: nat) {
    && (forall j: nat :: j > 0 && j != i ==> Under(cmp, a, j))
    && (0 < i < |a| ==> forall j: nat :: 0 < j < |a| && Parent(j) == i ==> cmp(a[j], a[Parent(i)]) >= 0)
  }

  lemma LooseMovesUp<T(!new)>(cmp: (T, T) -> int, a: seq<T>, i: nat)
    requires TotalPreorder(cmp) && 0 < i < |a| && LooseAt(cmp, a, i) && cmp(a[i], a[Parent(i)]) < 0
    ensures LooseAt(cmp, Swapped(a, i, Parent(i)), Parent(i))
  {
    var p := Parent(i);
    var b := Swapped(a, i, p);
    forall j: nat | j > 0 && j != p ensures Under(cmp, b, j) {
      if j < |a| { assert j != i ==> Under(cmp, a, j); }
    }
    if p > 0 {
      assert Under(cmp, a, p);
      forall j: nat | 0 < j < |a| && Parent(j) == p ensures cmp(b[j], b[Parent(p)]) >= 0 {
        assert j != i ==> Under(cmp, a, j);
      }
    }
  }

  lemma {:induction false} SiftUpRestores<T(!new)>(cmp: (T, T) -> int, a: seq<T>, i: nat)
    requires TotalPreorder(cmp) && i < |a| && LooseAt(cmp, a, i)
    ensures IsHeap(cmp, SiftedUp(cmp, a, i))
    decreases i
  {
    if i > 0 && cmp(a[i], a[Parent(i)]) < 0 {
      LooseMovesUp(cmp, a, i);
      SiftUpRestores(cmp, Swapped(a, i, Parent(i)), Parent(i));
    } else {
      forall j: nat | j > 0 ensures Under(cmp, a, j) {}
    }
  }

  // ---------- What the operations keep ----------

  lemma HoleOpens<T(!new)>(cmp: (T, T) -> int, a: seq<T>, k: nat)
    requires k > 0 && HeapFrom(cmp, a, k)
    ensures HoleAt(cmp, a, k - 1, k - 1)
  {}

  lemma SiftOneMore<T(!new)>(cmp: (T, T) -> int, a: seq<T>, k: nat)
    requires TotalPreorder(cmp) && 0 < k <= |a| && HeapFrom(cmp, a, k)
    ensures HeapFrom(cmp, SiftedDown(cmp, a, k - 1), k - 1)
  {
    HoleOpens(cmp, a, k);
    SiftDownRestores(cmp, a, k - 1, k - 1);
  }

  lemma {:induction false} HeapifyFrom<T(!new)>(cmp: (T, T) -> int, a: seq<T>, k: nat)
    requires TotalPreorder(cmp) && k <= |a| && HeapFrom(cmp, a, k)
    ensures IsHeap(cmp, Heapified(cmp, a, k))
    decreases k
  {
    if k > 0 {
      SiftOneMore(cmp, a, k);
      HeapifyFrom(cmp, SiftedDown(cmp, a, k - 1), k - 1);
    }
  }

  /** The loop has reached `a` with the nodes below `i` still to sift. */
  ghost predicate Heapifying<T>(cmp: (T, T) -> int, start: seq<T>, half: nat, a: seq<T>, i: nat) {
    half <= |start| && i <= |a| && Heapified(cmp, a, i) == Heapified(cmp, start, half)
  }

  lemma HeapifyingStep<T>(cmp: (T, T) -> int, start: seq<T>, half: nat, a: seq<T>, i: nat, b: seq<T>)
    requires Heapifying(cmp, start, half, a, i + 1) && b == SiftedDown(cmp, a, i)
    ensures Heapifying(cmp, start, half, b, i)
  {}

  lemma HeapifyingEnd<T>(cmp: (T, T) -> int, start: seq<T>, half: nat, a: seq<T>)
    requires Heapifying(cmp, start, half, a, 0)
    ensures a == Heapified(cmp, start, half)
  {}

  /** Sifting the first half down, last first, makes any list a heap. */
  lemma HeapifyMakesHeap<T(!new)>(cmp: (T, T) -> int, a: seq<T>)
    requires TotalPreorder(cmp)
    ensures IsHeap(cmp, Heapified(cmp, a, |a| / 2))
    ensures multiset(Heapified(cmp, a, |a| / 2)) == multiset(a)
  {
    forall j: nat | j > 0 && Parent(j) >= |a| / 2 ensures Under(cmp, a, j) {}
    HeapifyFrom(cmp, a, |a| / 2);
  }

  lemma PushKeepsHeap<T(!new)>(cmp: (T, T) -> int, a: seq<T>, v: T)
    requires TotalPreorder(cmp) && IsHeap(cmp, a)
    ensures IsHeap(cmp, Pushed(cmp, a, v))
    ensures multiset(Pushed(cmp, a, v)) == multiset(a) + multiset{v}
  {
    var b := a + [v];
    forall j: nat | j > 0 && j != |a| ensures Under(cmp, b, j) { assert Under(cmp, a, j); }
    SiftUpRestores(cmp, b, |a|);
  }

  lemma {:induction false} TopIsLeast<T(!new)>(cmp: (T, T) -> int, a: seq<T>, j: nat)
    requires TotalPreorder(cmp) && IsHeap(cmp, a) && j < |a|
    ensures cmp(a[j], a[0]) >= 0
  {
    if j == 0 {
      assert cmp(a[0], a[0]) == 0;
    } else {
      TopIsLeast(cmp, a, Parent(j));
      assert Under(cmp, a, j);
    }
  }

  lemma PopConserves<T>(cmp: (T, T) -> int, a: seq<T>)
    requires a != []
    ensures multiset(a) == multiset(Popped(cmp, a)) + multiset{a[0]}
  {
    var rest, last := a[..|a| - 1], a[|a| - 1];
    assert a == rest + [last];
    if rest != [] {
      var moved := rest[0 := last];
      assert rest == [a[0]] + rest[1..] && moved == [last] + rest[1..];
    }
  }

  /** Popping keeps the heap, takes out one least item and conserves the rest. */
  lemma PopTakesLeast<T(!new)>(cmp: (T, T) -> int, a: seq<T>)
    requires TotalPreorder(cmp) && IsHeap(cmp, a) && a != []
    ensures IsHeap(cmp, Popped(cmp, a))
    ensures multiset(a) == multiset(Popped(cmp, a)) + multiset{a[0]}
    ensures forall x :: x in a ==> cmp(x, a[0]) >= 0
  {
    PopConserves(cmp, a);
    forall x | x in a ensures cmp(x, a[0]) >= 0 {
      var j :| 0 <= j < |a| && a[j] == x;
      TopIsLeast(cmp, a, j);
    }
    var rest := a[..|a| - 1];
    if rest != [] {
      var moved := rest[0 := a[|a| - 1]];
      forall j: nat | j > 0 && Parent(j) != 0 ensures Under(cmp, moved, j) { assert Under(cmp, a, j); }
      SiftDownRestores(cmp, moved, 0, 0);
    }
  }

  /** What popping until the heap is empty returns. */
  function Drained<T>(cmp: (T, T) -> int, a: seq<T>): seq<T>
    decreases |a|
  {
    if a == [] then [] else [a[0]] + Drained(cmp, Popped(cmp, a))
  }

  ghost predicate Sorted<T>(cmp: (T, T) -> int, s: seq<T>) {
    forall i, j :: 0 <= i < j < |s| ==> cmp(s[j], s[i]) >= 0
  }

  lemma SortedCons<T>(cmp: (T, T) -> int, x: T, s: seq<T>)
    requires Sorted(cmp, s) && forall i :: 0 <= i < |s| ==> cmp(s[i], x) >= 0
    ensures Sorted(cmp, [x] + s)
  {}

  lemma SameItems<T>(s: seq<T>, t: seq<T>, i: nat)
    requires multiset(s) == multiset(t) && i < |s|
    ensures s[i] in multiset(t)
  {
    assert s[i] in multiset(s);
  }

  /** Draining a heap sorts its contents. */
  lemma {:induction false} DrainedIsSorted<T(!new)>(cmp: (T, T) -> int, a: seq<T>)
    requires TotalPreorder(cmp) && IsHeap(cmp, a)
    ensures multiset(Drained(cmp, a)) == multiset(a)
    ensures Sorted(cmp, Drained(cmp, a))
    decreases |a|
  {
    if a != [] {
      PopTakesLeast(cmp, a);
      var rest := Popped(cmp, a);
      DrainedIsSorted(cmp, rest);
      var drained := Drained(cmp, rest);
      forall i | 0 <= i < |drained| ensures cmp(drained[i], a[0]) >= 0 {
        SameItems(drained, rest, i);
        assert drained[i] in multiset(a);
      }
      SortedCons(cmp, a[0], drained);
    }
  }

  // ---------- The class ----------

  class BinaryHeap<T(!new)> {
    var a: seq<T>
    const cmp: (T, T) -> int

    ghost predicate Valid()
      reads this
    {
      TotalPreorder(cmp) && IsHeap(cmp, a)
    }

    constructor (cmp: (T, T) -> int, items: seq<T>)
      ensures this.cmp == cmp
      ensures a == Heapified(cmp, items, |items| / 2)
      ensures TotalPreorder(cmp) ==> Valid()
      ensures multiset(a) == multiset(items)
    {
      this.cmp := cmp;
      a := [];
      new;
      for i := 0 to |items|
        invariant a == items[..i] && this.cmp == cmp
      {
        a := a + [items[i]];
      }
      assert items[..|items|] == items;
      if |a| > 1 {
        Heapify();
      }
      if TotalPreorder(cmp) {
        HeapifyMakesHeap(cmp, items);
      }
    }

    method Heapify()
      modifies this`a
      ensures a == Heapified(cmp, old(a), |old(a)| / 2)
    {
      var i: nat := |a| / 2;
      ghost var start, half := a, i;
      while i > 0
        invariant i <= |a|
        invariant Heapifying(cmp, start, half, a, i)
      {
        ghost var before := a;
        i := i - 1;
        SiftDown(i);
        HeapifyingStep(cmp, start, half, before, i, a);
      }
      HeapifyingEnd(cmp, start, half, a);
    }

    method SiftDown(start: nat)
      requires start < |a|
      modifies this`a
      ensures a == SiftedDown(cmp, old(a), start)
    {
      var n, i := |a|, start;
      while true
        invariant i < |a| == n
        invariant SiftedDown(cmp, a, i) == SiftedDown(cmp, old(a), start)
        decreases n - i
      {
        var l := i * 2 + 1;
        var r := l + 1;
        var best := i;
        if l < n && cmp(a[l], a[best]) < 0 {
          best := l;
        }
        if r < n && cmp(a[r], a[best]) < 0 {
          best := r;
        }
        if best == i {
          break;
        }
        Swap(i, best);
        i := best;
      }
    }

    method SiftUp(start: nat)
      requires start < |a|
      modifies this`a
      ensures a == SiftedUp(cmp, old(a), start)
    {
      var i: nat := start;
      while i > 0
        invariant i < |a|
        invariant SiftedUp(cmp, a, i) == SiftedUp(cmp, old(a), start)
      {
        var p := (i - 1) / 2;
        if cmp(a[i], a[p]) < 0 {
          Swap(i, p);
          i := p;
        } else {
          break;
        }
      }
    }

    method Swap(i: nat, j: nat)
      requires i < |a| && j < |a|
      modifies this`a
      ensures a == Swapped(old(a), i, j)
    {
      var t := a[i];
      a := a[i := a[j]];
      a := a[j := t];
    }

    method Peek() returns (top: Option<T>)
      ensures top.None? <==> a == []
      ensures top.Some? && Valid() ==> top.value in a && forall x :: x in a ==> cmp(x, top.value) >= 0
    {
      if |a| == 0 {
        return None;
      }
      top := Some(a[0]);
      if Valid() {
        PopTakesLeast(cmp, a);
      }
    }

    method Push(v: T)
      modifies this`a
      ensures a == Pushed(cmp, old(a), v)
      ensures old(Valid()) ==> Valid() && multiset(a) == multiset(old(a)) + multiset{v}
    {
      if Valid() {
        PushKeepsHeap(cmp, a, v);
      }
      a := a + [v];
      SiftUp(|a| - 1);
    }

    method Pop() returns (top: Option<T>)
      modifies this`a
      ensures top.None? <==> old(a) == []
      ensures top.None? ==> a == []
      ensures top.Some? ==> top.value == old(a)[0] && a == Popped(cmp, old(a))
      ensures top.Some? && old(Valid()) ==>
                && Valid()
                && multiset(old(a)) == multiset(a) + multiset{top.value}
                && forall x :: x in old(a) ==> cmp(x, top.value) >= 0
    {
      if |a| == 0 {
        return None;
      }
      if Valid() {
        PopTakesLeast(cmp, a);
      }
      top := Some(a[0]);
      var last := a[|a| - 1];
      a := a[..|a| - 1];
      if |a| > 0 {
        a := a[0 := last];
        SiftDown(0);
      }
    }
  }
}
