/**
 The binary heap of Go's container/heap, which both transaction orderings keep
 their account heads in.  `less(x, y)` means x comes out before y.  The methods work in
 place on an array; what they keep is stated about its contents.
 */
module Heap {

  ghost predicate StrictWeakOrder<T(!new)>(less: (T, T) -> bool) {
    && (forall x :: !less(x, x))
    && (forall x, y, z :: less(x, y) && less(y, z) ==> less(x, z))
    && (forall x, y, z :: !less(x, y) && !less(y, z) ==> !less(x, z))
  }

  function Parent(j: int): int
    requires j > 0
  {
    (j - 1) / 2
  }

  /** The element at j does not come before its parent. */
  predicate Edge<T>(h: seq<T>, less: (T, T) -> bool, j: int)
    requires 0 < j < |h|
  {
    !less(h[j], h[Parent(j)])
  }

  ghost predicate IsHeap<T>(h: seq<T>, less: (T, T) -> bool) {
    forall j | 0 < j < |h| :: Edge(h, less, j)
  }

  /** The root comes out no later than anything else. */
  lemma {:induction false} RootIsFirst<T(!new)>(h: seq<T>, less: (T, T) -> bool, j: nat)
    requires StrictWeakOrder(less) && IsHeap(h, less) && j < |h|
    ensures !less(h[j], h[0])
  {
    if j > 0 {
      RootIsFirst(h, less, Parent(j));
      assert Edge(h, less, j);
    }
  }

  function Swap<T>(h: seq<T>, i: nat, j: nat): (r: seq<T>)
    requires i < |h| && j < |h|
    ensures |r| == |h| && multiset(r) == multiset(h)
  {
    h[i := h[j]][j := h[i]]
  }

  /** All edges below `lo` hold, except perhaps the one from i to its parent and those from i's children to i. */
  ghost predicate OrderedExceptAt<T>(h: seq<T>, less: (T, T) -> bool, lo: nat, n: nat, i: nat)
    requires n <= |h|
  {
    && (forall j | 0 < j < n && lo <= Parent(j) && Parent(j) != i && j != i :: Edge(h, less, j))
    && (forall j | 0 < j < n && 0 < i && lo <= Parent(i) && Parent(j) == i :: !less(h[j], h[Parent(i)]))
  }

  /** All edges below `lo` hold, except perhaps the one from i to its parent. */
  ghost predicate OrderedBelow<T>(h: seq<T>, less: (T, T) -> bool, lo: nat, n: nat, i: nat)
    requires n <= |h|
  {
    forall j | 0 < j < n && lo <= Parent(j) && j != i :: Edge(h, less, j)
  }

  /** Sinking has brought the element from above down to i, its children being no earlier than i's parent. */
  ghost predicate Sinking<T>(h: seq<T>, less: (T, T) -> bool, lo: nat, n: nat, i: nat)
    requires n <= |h|
  {
    && 0 < i < n
    && (forall k | 0 < k < n && lo <= Parent(k) && Parent(k) != i :: Edge(h, less, k))
    && (forall k | 0 < k < n && Parent(k) == i :: !less(h[k], h[Parent(i)]))
  }

  /** The array behind a slice. */
  method Backing<T>(s: seq<T>) returns (a: array<T>)
    ensures fresh(a) && a[..] == s
  {
    a := new T[|s|](i requires 0 <= i < |s| => s[i]);
  }

  /** The Swap of the heap interface. */
  method Exchange<T>(a: array<T>, i: nat, j: nat)
    requires i < a.Length && j < a.Length
    modifies a
    ensures a[..] == Swap(old(a[..]), i, j)
  {
    a[i], a[j] := a[j], a[i];
  }

  /** The child of i that comes first, or n if there is none. */
  method FirstChild<T(!new)>(a: array<T>, less: (T, T) -> bool, i: nat, n: nat) returns (j: nat)
    requires StrictWeakOrder(less) && i <= n <= a.Length
    ensures j == n || (i < j < n && Parent(j) == i)
    ensures forall k | 0 < k < n && Parent(k) == i :: j < n && !less(a[k], a[j])
  {
    if 2 * i + 1 >= n {
      return n;
    }
    j := 2 * i + 1;
    if j + 1 < n && less(a[j + 1], a[j]) {
      j := j + 1;
    }
    assert forall k | 0 < k < n && Parent(k) == i :: k == 2 * i + 1 || k == 2 * i + 2;
  }

  /** down(h, i0, n): sinks the element at i0 within the first n. */
  method Down<T(!new)>(a: array<T>, less: (T, T) -> bool, i0: nat, n: nat, ghost lo: nat) returns (moved: bool)
    requires StrictWeakOrder(less) && lo <= i0 <= n <= a.Length
    requires OrderedExceptAt(a[..], less, lo, n, i0)
    modifies a
    ensures multiset(a[..]) == multiset(old(a[..])) && a[n..] == old(a[n..])
    ensures OrderedBelow(a[..], less, lo, n, i0)
    ensures moved ==> i0 < n && (0 < i0 && lo <= Parent(i0) ==> Edge(a[..], less, i0))
    ensures !moved ==> a[..] == old(a[..])
  {
    hide OrderedExceptAt, OrderedBelow, Sinking, Swap, Edge;
    var i := i0;
    while true
      invariant i0 <= i <= n && multiset(a[..]) == multiset(old(a[..])) && a[..][n..] == old(a[..])[n..]
      invariant i == i0 ==> a[..] == old(a[..])
      invariant i0 < i ==> Sinking(a[..], less, lo, n, i)
      decreases n - i
    {
      var j := FirstChild(a, less, i, n);
      if j >= n || !less(a[j], a[i]) {
        SinkDone(a[..], less, lo, n, i0, i, j);
        break;
      }
      SinkStep(a[..], less, lo, n, i0, i, j);
      Exchange(a, i, j);
      i := j;
    }
    moved := i > i0;
  }

  lemma SinkDone<T(!new)>(h: seq<T>, less: (T, T) -> bool, lo: nat, n: nat, i0: nat, i: nat, j: nat)
    requires StrictWeakOrder(less) && lo <= i0 <= i <= n <= |h|
    requires i == i0 ==> OrderedExceptAt(h, less, lo, n, i0)
    requires i0 < i ==> Sinking(h, less, lo, n, i)
    requires forall k | 0 < k < n && Parent(k) == i :: j < n && !less(h[k], h[j])
    requires j < n ==> i < n && !less(h[j], h[i])
    ensures OrderedBelow(h, less, lo, n, i0)
    ensures i0 < i && 0 < i0 && lo <= Parent(i0) ==> Edge(h, less, i0)
  {
    forall k | 0 < k < n && Parent(k) == i ensures Edge(h, less, k) {
      assert !less(h[k], h[j]) && !less(h[j], h[i]);
    }
  }

  /** One step of sinking, from i to its first child j. */
  lemma SinkStep<T(!new)>(h: seq<T>, less: (T, T) -> bool, lo: nat, n: nat, i0: nat, i: nat, j: nat)
    requires StrictWeakOrder(less) && lo <= i0 <= i < j < n <= |h| && Parent(j) == i
    requires less(h[j], h[i]) && forall k | 0 < k < n && Parent(k) == i :: !less(h[k], h[j])
    requires i == i0 ==> OrderedExceptAt(h, less, lo, n, i0)
    requires i0 < i ==> Sinking(h, less, lo, n, i)
    ensures Sinking(Swap(h, i, j), less, lo, n, j) && Swap(h, i, j)[n..] == h[n..]
  {
    var r := Swap(h, i, j);
    forall k | 0 < k < n && lo <= Parent(k) && Parent(k) != j ensures Edge(r, less, k) {
      if k == i {
        assert r[k] == h[j];
      } else if Parent(k) == i {
        assert r[Parent(k)] == h[j];
      } else {
        assert Edge(h, less, k);
      }
    }
    forall k | 0 < k < n && Parent(k) == j ensures !less(r[k], r[Parent(j)]) {
      assert Edge(h, less, k);
    }
  }

  /** The children of j come no earlier than j's parent. */
  ghost predicate ChildrenAfter<T>(h: seq<T>, less: (T, T) -> bool, j: nat)
    requires j < |h|
  {
    forall k | 0 < k < |h| && 0 < j && Parent(k) == j :: !less(h[k], h[Parent(j)])
  }

  /** up(h, j): raises the element at j. */
  method Up<T(!new)>(a: array<T>, less: (T, T) -> bool, j0: nat)
    requires StrictWeakOrder(less) && j0 < a.Length
    requires OrderedBelow(a[..], less, 0, a.Length, j0) && ChildrenAfter(a[..], less, j0)
    modifies a
    ensures multiset(a[..]) == multiset(old(a[..])) && IsHeap(a[..], less)
  {
    hide OrderedBelow, ChildrenAfter, Swap, IsHeap;
    var j := j0;
    while j > 0 && less(a[j], a[Parent(j)])
      invariant 0 <= j < a.Length && multiset(a[..]) == multiset(old(a[..]))
      invariant OrderedBelow(a[..], less, 0, a.Length, j) && ChildrenAfter(a[..], less, j)
      decreases j
    {
      var i := Parent(j);
      RiseStep(a[..], less, i, j);
      Exchange(a, i, j);
      j := i;
    }
    RiseDone(a[..], less, j);
  }

  lemma RiseDone<T(!new)>(h: seq<T>, less: (T, T) -> bool, j: nat)
    requires j < |h| && OrderedBelow(h, less, 0, |h|, j) && (j > 0 ==> !less(h[j], h[Parent(j)]))
    ensures IsHeap(h, less)
  {
  }

  lemma RiseStep<T(!new)>(h: seq<T>, less: (T, T) -> bool, i: nat, j: nat)
    requires StrictWeakOrder(less) && 0 < j < |h| && i == Parent(j) && less(h[j], h[i])
    requires OrderedBelow(h, less, 0, |h|, j) && ChildrenAfter(h, less, j)
    ensures OrderedBelow(Swap(h, i, j), less, 0, |h|, i) && ChildrenAfter(Swap(h, i, j), less, i)
  {
    var r := Swap(h, i, j);
    forall k | 0 < k < |h| && k != i ensures Edge(r, less, k) {
      if k != j {
        assert Edge(h, less, k);
      }
    }
    forall k | 0 < k < |h| && 0 < i && Parent(k) == i ensures !less(r[k], r[Parent(i)]) {
      assert Edge(h, less, i);
      if k != j {
        assert Edge(h, less, k);
      }
    }
  }

  /** heap.Init */
  method Init<T(!new)>(a: array<T>, less: (T, T) -> bool)
    requires StrictWeakOrder(less)
    modifies a
    ensures multiset(a[..]) == multiset(old(a[..])) && IsHeap(a[..], less)
  {
    hide OrderedExceptAt, OrderedBelow, IsHeap, Edge;
    var i := a.Length / 2;
    LeavesAreOrdered(a[..], less);
    while i > 0
      invariant 0 <= i <= a.Length / 2 && multiset(a[..]) == multiset(old(a[..]))
      invariant OrderedFrom(a[..], less, i)
    {
      i := i - 1;
      NextToSink(a[..], less, i);
      var _ := Down(a, less, i, a.Length, i);
      SunkIsOrdered(a[..], less, i);
    }
    OrderedFromRoot(a[..], less);
  }

  /** All edges to parents from i on hold. */
  ghost predicate OrderedFrom<T>(h: seq<T>, less: (T, T) -> bool, i: nat) {
    forall j | 0 < j < |h| && i <= Parent(j) :: Edge(h, less, j)
  }

  lemma LeavesAreOrdered<T>(h: seq<T>, less: (T, T) -> bool)
    ensures OrderedFrom(h, less, |h| / 2)
  {
  }

  lemma NextToSink<T>(h: seq<T>, less: (T, T) -> bool, i: nat)
    requires OrderedFrom(h, less, i + 1)
    ensures OrderedExceptAt(h, less, i, |h|, i)
  {
  }

  lemma SunkIsOrdered<T>(h: seq<T>, less: (T, T) -> bool, i: nat)
    requires OrderedBelow(h, less, i, |h|, i)
    ensures OrderedFrom(h, less, i)
  {
  }

  lemma OrderedFromRoot<T>(h: seq<T>, less: (T, T) -> bool)
    requires OrderedFrom(h, less, 0)
    ensures IsHeap(h, less)
  {
  }

  /** heap.Fix: restores the heap after the element at i was replaced. */
  method Fix<T(!new)>(a: array<T>, less: (T, T) -> bool, i: nat)
    requires StrictWeakOrder(less) && i < a.Length && OrderedExceptAt(a[..], less, 0, a.Length, i)
    modifies a
    ensures multiset(a[..]) == multiset(old(a[..])) && IsHeap(a[..], less)
  {
    var moved := Down(a, less, i, a.Length, 0);
    if !moved {
      Up(a, less, i);
    }
  }

  /** A heap with one element replaced is what Fix expects. */
  lemma ReplacedIsFixable<T(!new)>(h: seq<T>, less: (T, T) -> bool, i: nat, x: T)
    requires StrictWeakOrder(less) && IsHeap(h, less) && i < |h|
    ensures OrderedExceptAt(h[i := x], less, 0, |h|, i)
  {
    var r := h[i := x];
    forall j | 0 < j < |h| && Parent(j) != i && j != i ensures Edge(r, less, j) {
      assert Edge(h, less, j);
    }
    forall j | 0 < j < |h| && 0 < i && Parent(j) == i ensures !less(r[j], r[Parent(i)]) {
      assert Edge(h, less, j) && Edge(h, less, i);
    }
  }

  /** heap.Pop: the root goes to the end, behind a heap of the rest. */
  method Pop<T(!new)>(a: array<T>, less: (T, T) -> bool) returns (x: T)
    requires StrictWeakOrder(less) && a.Length > 0 && IsHeap(a[..], less)
    modifies a
    ensures x == old(a[0])
    ensures multiset(a[..a.Length - 1]) == multiset(old(a[..])) - multiset{x} && IsHeap(a[..a.Length - 1], less)
  {
    hide OrderedExceptAt, Swap, IsHeap;
    var n := a.Length - 1;
    RootSwappedOut(a[..], less);
    Exchange(a, 0, n);
    var _ := Down(a, less, 0, n, 0);
    x := a[n];
    PoppedIsHeap(a[..], less, n);
    assert a[n..] == [x];
    assert a[..] == a[..n] + [x];
  }

  lemma RootSwappedOut<T(!new)>(h: seq<T>, less: (T, T) -> bool)
    requires IsHeap(h, less) && h != []
    ensures var n := |h| - 1; var s := Swap(h, 0, n); OrderedExceptAt(s, less, 0, n, 0) && s[n..] == [h[0]]
  {
    var n := |h| - 1;
    var s := Swap(h, 0, n);
    forall j | 0 < j < n && Parent(j) != 0 ensures Edge(s, less, j) {
      assert Edge(h, less, j);
    }
  }

  lemma PoppedIsHeap<T(!new)>(s: seq<T>, less: (T, T) -> bool, n: nat)
    requires n <= |s| && OrderedBelow(s, less, 0, n, 0)
    ensures IsHeap(s[..n], less)
  {
    forall j | 0 < j < n ensures Edge(s[..n], less, j) {
      assert Edge(s, less, j);
    }
  }
}
