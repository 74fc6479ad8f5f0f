/** The binary heap of Go's container/heap, over any strict weak order: Init, Push and Pop by sifting. */
module Heap {

  ghost predicate StrictWeakOrder<T(!new)>(less: (T, T) -> bool) {
    && (forall a, b :: less(a, b) ==> !less(b, a))
    && (forall a, b, c :: !less(b, a) && !less(c, b) ==> !less(c, a))
  }

  function Swap<T>(s: seq<T>, i: nat, j: nat): (r: seq<T>)
    requires i < |s| && j < |s|
    ensures |r| == |s|
  {
    s[i := s[j]][j := s[i]]
  }

  lemma SwapPermutes<T>(s: seq<T>, i: nat, j: nat)
    requires i < |s| && j < |s|
    ensures multiset(Swap(s, i, j)) == multiset(s)
  {
  }

  function Parent(k: nat): nat
    requires 0 < k
  {
    (k - 1) / 2
  }

  /** Element k is not below element p. */
  predicate NotBelow<T>(less: (T, T) -> bool, s: seq<T>, k: nat, p: nat)
    requires k < |s| && p < |s|
  {
    !less(s[k], s[p])
  }

  /** No element of the first n is below its parent, for parents from `lo` on. */
  ghost predicate HeapFrom<T>(less: (T, T) -> bool, s: seq<T>, n: nat, lo: nat)
    requires n <= |s|
  {
    forall k, p :: 0 < k < n && p == Parent(k) && lo <= p ==> NotBelow(less, s, k, p)
  }

  ghost predicate IsHeap<T>(less: (T, T) -> bool, s: seq<T>) {
    HeapFrom(less, s, |s|, 0)
  }

  /** A heap but for the children of `i`, which are nevertheless not below i's parent. */
  ghost predicate SinkingAt<T>(less: (T, T) -> bool, s: seq<T>, n: nat, lo: nat, i: nat)
    requires i < n <= |s|
  {
    && (forall k, p :: 0 < k < n && p == Parent(k) && lo <= p && p != i ==> NotBelow(less, s, k, p))
    && (forall k, p :: 0 < k < n && Parent(k) == i && 0 < i && p == Parent(i) && lo <= p ==> NotBelow(less, s, k, p))
  }

  /** A heap but for `j` against its parent; j's children are not below that parent. */
  ghost predicate RisingAt<T>(less: (T, T) -> bool, s: seq<T>, j: nat)
    requires j < |s|
  {
    && (forall k, p :: 0 < k < |s| && p == Parent(k) && k != j ==> NotBelow(less, s, k, p))
    && (forall k, p :: 0 < k < |s| && Parent(k) == j && 0 < j && p == Parent(j) ==> NotBelow(less, s, k, p))
  }

  /** The child that sifting down compares with is a least child; if it is not below i, no child is. */
  lemma LeastChild<T(!new)>(less: (T, T) -> bool, s: seq<T>, n: nat, i: nat, j: nat)
    requires StrictWeakOrder(less) && 2 * i + 1 < n <= |s|
    requires j == if 2 * i + 2 < n && less(s[2 * i + 2], s[2 * i + 1]) then 2 * i + 2 else 2 * i + 1
    ensures Parent(j) == i
    ensures forall k :: 0 < k < n && Parent(k) == i ==> NotBelow(less, s, k, j)
    ensures !less(s[j], s[i]) ==> forall k :: 0 < k < n && Parent(k) == i ==> NotBelow(less, s, k, i)
  {
    forall k | 0 < k < n && Parent(k) == i ensures NotBelow(less, s, k, j) {
      assert k == 2 * i + 1 || k == 2 * i + 2;
    }
  }

  lemma HeapAgrees<T>(less: (T, T) -> bool, s: seq<T>, t: seq<T>, n: nat, lo: nat)
    requires n <= |s| && n <= |t| && HeapFrom(less, s, n, lo)
    requires forall k :: lo <= k < n ==> s[k] == t[k]
    ensures HeapFrom(less, t, n, lo)
  {
    forall k, p | 0 < k < n && p == Parent(k) && lo <= p
      ensures NotBelow(less, t, k, p)
    {
      assert NotBelow(less, s, k, p);
    }
  }

  /** When i's children are not below it, sinking is done. */
  lemma SinkDone<T>(less: (T, T) -> bool, s: seq<T>, n: nat, lo: nat, i: nat)
    requires i < n <= |s| && SinkingAt(less, s, n, lo, i)
    requires forall k :: 0 < k < n && Parent(k) == i ==> NotBelow(less, s, k, i)
    ensures HeapFrom(less, s, n, lo)
  {
  }

  /** Exchanging an element with its least child moves the defect down to that child. */
  lemma SinkStep<T(!new)>(less: (T, T) -> bool, s: seq<T>, n: nat, lo: nat, i: nat, j: nat)
    requires StrictWeakOrder(less) && i < n <= |s| && lo <= i && SinkingAt(less, s, n, lo, i)
    requires 0 < j < n && Parent(j) == i && less(s[j], s[i])
    requires forall k :: 0 < k < n && Parent(k) == i ==> NotBelow(less, s, k, j)
    ensures SinkingAt(less, Swap(s, i, j), n, lo, j)
  {
    var t := Swap(s, i, j);
    forall k, p | 0 < k < n && p == Parent(k) && lo <= p && p != j
      ensures NotBelow(less, t, k, p)
    {
      if p == i {
        if k == j { assert !less(s[i], s[j]); } else { assert NotBelow(less, s, k, j); }
      } else if k == i {
        assert NotBelow(less, s, j, p);
      } else {
        assert NotBelow(less, s, k, p);
      }
    }
    forall k, p | 0 < k < n && Parent(k) == j && p == Parent(j) && lo <= p
      ensures NotBelow(less, t, k, p)
    {
      assert NotBelow(less, s, k, j);
    }
  }

  /** Exchanging an element with its parent moves the defect up to the parent. */
  lemma RiseStep<T(!new)>(less: (T, T) -> bool, s: seq<T>, j: nat)
    requires StrictWeakOrder(less) && 0 < j < |s| && RisingAt(less, s, j) && less(s[j], s[Parent(j)])
    ensures RisingAt(less, Swap(s, Parent(j), j), Parent(j))
  {
    var i := Parent(j);
    var t := Swap(s, i, j);
    forall k, p | 0 < k < |s| && p == Parent(k) && k != i
      ensures NotBelow(less, t, k, p)
    {
      if p == j {
        assert NotBelow(less, s, k, i);
      } else if k == j {
        assert !less(s[i], s[j]);
      } else if p == i {
        assert NotBelow(less, s, k, i) && !less(s[i], s[j]);
      } else {
        assert NotBelow(less, s, k, p);
      }
    }
    forall k, p | 0 < k < |s| && Parent(k) == i && 0 < i && p == Parent(i)
      ensures NotBelow(less, t, k, p)
    {
      assert NotBelow(less, s, i, p);
      if k != j { assert NotBelow(less, s, k, i); }
    }
  }

  ghost predicate LeastIn<T>(less: (T, T) -> bool, s: seq<T>, x: T) {
    x in s && forall y <- s :: !less(y, x)
  }

  /** The root of a heap is not above anything. */
  lemma {:induction false} RootIsLeast<T(!new)>(less: (T, T) -> bool, s: seq<T>, k: nat)
    requires StrictWeakOrder(less) && IsHeap(less, s) && k < |s|
    ensures !less(s[k], s[0])
  {
    if 0 < k {
      RootIsLeast(less, s, Parent(k));
      assert NotBelow(less, s, k, Parent(k));
    }
  }

  lemma PopReady<T(!new)>(less: (T, T) -> bool, s: seq<T>)
    requires StrictWeakOrder(less) && IsHeap(less, s) && s != []
    ensures LeastIn(less, s, s[0])
    ensures var n := |s| - 1;
            && HeapFrom(less, Swap(s, 0, n), n, 1)
            && multiset(Swap(s, 0, n)) == multiset(s)
  {
    var n := |s| - 1;
    forall k | 0 <= k < |s| ensures !less(s[k], s[0]) {
      RootIsLeast(less, s, k);
    }
    SwapPermutes(s, 0, n);
    HeapAgrees(less, s, Swap(s, 0, n), n, 1);
  }

  class Heap<T(!new)> {
    const less: (T, T) -> bool
    var items: seq<T>

    ghost predicate Valid()
      reads this
    {
      StrictWeakOrder(less) && IsHeap(less, items)
    }

    constructor (less: (T, T) -> bool)
      requires StrictWeakOrder(less)
      ensures Valid() && items == [] && this.less == less
    {
      this.less := less;
      items := [];
    }

    constructor On(less: (T, T) -> bool, items: seq<T>)
      ensures this.items == items && this.less == less
    {
      this.less, this.items := less, items;
    }

    method Down(i0: nat, n: nat)
      requires StrictWeakOrder(less) && i0 < n <= |items| && HeapFrom(less, items, n, i0 + 1)
      modifies this
      ensures |items| == |old(items)| && items[n..] == old(items)[n..]
      ensures multiset(items) == old(multiset(items))
      ensures HeapFrom(less, items, n, i0)
    {
      var i := i0;
      while true
        invariant i0 <= i < n <= |items| == |old(items)| && items[n..] == old(items)[n..]
        invariant multiset(items) == old(multiset(items))
        invariant SinkingAt(less, items, n, i0, i)
        decreases n - i
      {
        var j1 := 2 * i + 1;
        if n <= j1 {
          SinkDone(less, items, n, i0, i);
          break;
        }
        var j := j1;
        if j1 + 1 < n && less(items[j1 + 1], items[j1]) { j := j1 + 1; }
        LeastChild(less, items, n, i, j);
        if !less(items[j], items[i]) {
          SinkDone(less, items, n, i0, i);
          break;
        }
        SinkStep(less, items, n, i0, i, j);
        SwapPermutes(items, i, j);
        items := Swap(items, i, j);
        i := j;
      }
    }

    method Up(j0: nat)
      requires StrictWeakOrder(less) && j0 < |items| && RisingAt(less, items, j0)
      modifies this
      ensures |items| == |old(items)| && multiset(items) == old(multiset(items))
      ensures IsHeap(less, items)
    {
      var j := j0;
      while true
        invariant 0 <= j < |items| == |old(items)| && multiset(items) == old(multiset(items))
        invariant RisingAt(less, items, j)
        decreases j
      {
        var i := if j == 0 then 0 else (j - 1) / 2;
        if i == j || !less(items[j], items[i]) { break; }
        RiseStep(less, items, j);
        SwapPermutes(items, i, j);
        items := Swap(items, i, j);
        j := i;
      }
    }

    /** heap.Init on a slice built elsewhere. */
    method Init()
      requires StrictWeakOrder(less)
      modifies this
      ensures Valid() && multiset(items) == old(multiset(items))
    {
      var n := |items|;
      var i := n / 2;
      while 0 < i
        invariant 0 <= i <= n / 2 && |items| == n && multiset(items) == old(multiset(items))
        invariant HeapFrom(less, items, n, i)
      {
        i := i - 1;
        Down(i, n);
      }
    }

    method Push(x: T)
      requires Valid()
      modifies this
      ensures Valid() && multiset(items) == old(multiset(items)) + multiset{x}
    {
      ghost var n := |items|;
      ghost var before := items;
      items := items + [x];
      HeapAgrees(less, before, items, n, 0);
      Up(|items| - 1);
    }

    method Pop() returns (x: T)
      requires Valid() && items != []
      modifies this
      ensures Valid() && LeastIn(less, old(items), x)
      ensures multiset(items) == old(multiset(items)) - multiset{x}
    {
      ghost var before := items;
      PopReady(less, before);
      var n := |items| - 1;
      items := Swap(items, 0, n);
      if 0 < n { Down(0, n); }
      x := items[n];
      assert items == items[..n] + [x];
      HeapAgrees(less, items, items[..n], n, 0);
      items := items[..n];
    }
  }
}
