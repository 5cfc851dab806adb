/**
 * The binary heap of top-k/heap/heap.go: a slice kept in heap order under
 * a caller-supplied preference `cmp` (cmp(a, b) means a belongs nearer the
 * root than b), with the parent of index i at (i - 1) / 2 and its children
 * at 2i + 1 and 2i + 2.
 */
module Heaps {

  /** Go's integer division, which truncates toward zero. */
  function GoQuot(a: int, b: int): (q: int)
    requires b > 0
    ensures a >= 0 ==> q == a / b
    ensures a < 0 ==> q == -((-a) / b)
  {
    if a >= 0 then a / b else -((-a) / b)
  }

  /** getParentIndex: (i - 1) / 2 with Go's division, so the root is its own parent. */
  function ParentIndex(i: int): (p: int)
    ensures i == 0 ==> p == 0
    ensures i > 0 ==> 0 <= p < i && (2 * p + 1 == i || 2 * p + 2 == i)
  {
    GoQuot(i - 1, 2)
  }

  /** getLeftChildIndex. */
  function LeftChildIndex(i: int): (c: int)
    ensures i >= 0 ==> c > i && ParentIndex(c) == i
  {
    2 * i + 1
  }

  /** getRightChildIndex: the slot after the left child, with the same parent. */
  function RightChildIndex(i: int): (c: int)
    ensures c == LeftChildIndex(i) + 1
    ensures i >= 0 ==> ParentIndex(c) == i
  {
    2 * i + 2
  }

  /**
   * What the heap needs of cmp: a strict weak order (irreflexive,
   * transitive, and "neither preferred" is transitive too), as `<` and `>`
   * on integers are.
   */
  ghost predicate StrictWeakOrder<T(!new)>(cmp: (T, T) -> bool)
  {
    (forall x :: !cmp(x, x)) &&
    (forall x, y, z {:trigger cmp(x, y), cmp(y, z), cmp(x, z)} :: cmp(x, y) && cmp(y, z) ==> cmp(x, z)) &&
    (forall x, y, z {:trigger cmp(x, y), cmp(y, z), cmp(x, z)} :: cmp(x, z) ==> cmp(x, y) || cmp(y, z))
  }

  /** What a strict weak order gives for three elements, spelled out for the solver. */
  lemma Order<T(!new)>(cmp: (T, T) -> bool, x: T, y: T, z: T)
    requires StrictWeakOrder(cmp)
    ensures !cmp(x, x) && (cmp(x, y) ==> !cmp(y, x))
    ensures cmp(x, y) && cmp(y, z) ==> cmp(x, z)
    ensures !cmp(x, y) && !cmp(y, z) ==> !cmp(x, z)
  {
  }

  /** Heap order on the first n slots: no element is preferred over its parent. */
  ghost predicate Ordered<T>(a: seq<T>, n: int, cmp: (T, T) -> bool)
    requires n <= |a|
  {
    forall k {:trigger ParentIndex(k)} :: 0 < k < n ==> !cmp(a[k], a[ParentIndex(k)])
  }

  /** Heap order on the first n slots except between slot c and its children. */
  ghost predicate OrderedBut<T>(a: seq<T>, n: int, c: int, cmp: (T, T) -> bool)
    requires n <= |a|
  {
    forall k {:trigger ParentIndex(k)} :: 0 < k < n && ParentIndex(k) != c ==> !cmp(a[k], a[ParentIndex(k)])
  }

  /** No child of slot c is preferred over c's parent (vacuous at the root). */
  ghost predicate ChildrenUnder<T>(a: seq<T>, n: int, c: int, cmp: (T, T) -> bool)
    requires n <= |a| && 0 <= c < |a|
  {
    c > 0 ==> forall k :: 0 < k < n && ParentIndex(k) == c ==> !cmp(a[k], a[ParentIndex(c)])
  }

  /** The child siftDown compares slot i against: the right one if it is preferred over the left one. */
  function Pick<T(!new)>(a: seq<T>, i: nat, n: int, cmp: (T, T) -> bool): (j: nat)
    requires StrictWeakOrder(cmp) && LeftChildIndex(i) < n <= |a|
    ensures ParentIndex(j) == i && j < n
    ensures forall k :: 0 < k < n && ParentIndex(k) == i ==> !cmp(a[k], a[j])
  {
    var left := LeftChildIndex(i);
    var right := left + 1;
    if right < n && cmp(a[right], a[left]) then
      Order(cmp, a[right], a[left], a[left]);
      right
    else left
  }

  /** RootBest for every slot at once. */
  lemma RootBestAll<T(!new)>(a: seq<T>, n: int, cmp: (T, T) -> bool)
    requires n <= |a|
    ensures StrictWeakOrder(cmp) && Ordered(a, n, cmp) ==> forall k :: 0 <= k < n ==> !cmp(a[k], a[0])
  {
    if StrictWeakOrder(cmp) && Ordered(a, n, cmp) {
      forall k | 0 <= k < n {
        RootBest(a, n, cmp, k);
      }
    }
  }

  /** In a heap no element is preferred over the element at the root. */
  lemma {:induction false} RootBest<T(!new)>(a: seq<T>, n: int, cmp: (T, T) -> bool, k: nat)
    requires StrictWeakOrder(cmp) && n <= |a| && Ordered(a, n, cmp) && k < n
    ensures !cmp(a[k], a[0])
    decreases k
  {
    if k > 0 {
      var p := ParentIndex(k);
      RootBest(a, n, cmp, p);
      Order(cmp, a[k], a[p], a[0]);
    }
  }

  class Heap<T(!new)> {
    var data: seq<T>
    const cmp: (T, T) -> bool

    ghost predicate Valid()
      reads this
    {
      StrictWeakOrder(cmp) && Ordered(data, |data|, cmp)
    }

    /** New: an empty heap; Go's make panics on a negative capacity. */
    constructor (cap: int, cmp: (T, T) -> bool)
      requires cap >= 0 && StrictWeakOrder(cmp)
      ensures Valid() && data == [] && this.cmp == cmp
    {
      data := [];
      this.cmp := cmp;
    }

    /** Len and len. */
    function Len(): (n: int)
      reads this
      ensures n == |data| && n >= 0
    {
      |data|
    }

    /** Root: the first slot, which no element of a valid heap is preferred over. */
    function Root(): (r: T)
      reads this
      requires |data| > 0
      ensures Valid() ==> forall k :: 0 <= k < |data| ==> !cmp(data[k], r)
    {
      RootBestAll(data, |data|, cmp);
      data[0]
    }

    /** swap. */
    method Swap(i: int, j: int)
      requires 0 <= i < |data| && 0 <= j < |data|
      modifies this
      ensures data == old(data)[i := old(data)[j]][j := old(data)[i]]
      ensures multiset(data) == multiset(old(data))
    {
      SwapKeeps(data, i, j);
      data := data[i := data[j]][j := data[i]];
    }

    /** Push: append, then sift the new last element up. */
    method Push(value: T)
      requires Valid()
      modifies this
      ensures Valid()
      ensures |data| == old(|data|) + 1 && multiset(data) == multiset(old(data)) + multiset{value}
    {
      data := data + [value];
      data := SiftUp(data, |data| - 1, cmp);
    }

    /**
     * Pop: on an empty heap, the zero value and no change; otherwise the
     * root leaves the heap, and no remaining element is preferred over it.
     */
    method Pop(zero: T) returns (value: T)
      requires Valid()
      modifies this
      ensures Valid()
      ensures old(|data|) == 0 ==> value == zero && data == []
      ensures old(|data|) > 0 ==>
        value == old(data[0]) && |data| == old(|data|) - 1 &&
        multiset(data) + multiset{value} == multiset(old(data)) &&
        forall k :: 0 <= k < |data| ==> !cmp(data[k], value)
    {
      if |data| == 0 {
        return zero;
      }
      ghost var d0 := data;
      RootBestAll(d0, |d0|, cmp);
      var n := |data| - 1;
      Swap(0, n);
      value := data[n];
      assert multiset(data) == multiset(data[..n]) + multiset{value} by {
        assert data == data[..n] + [value];
      }
      data := data[..n];
      forall k | 0 <= k < |data|
        ensures !cmp(data[k], value)
      {
        assert data[k] == d0[k] || (k == 0 && data[k] == d0[n]);
      }
      ghost var d1 := data;
      var moved;
      data, moved := SiftDown(data, 0, |data|, cmp);
      forall k | 0 <= k < |data|
        ensures !cmp(data[k], value)
      {
        assert data[k] in multiset(d1);
      }
    }
  }

  /**
   * siftUp on the heap's slice: move the element at slot i up while it is
   * preferred over its parent. Slot i may be out of order only against its
   * parent, and its children are not preferred over that parent.
   */
  method SiftUp<T(!new)>(a: seq<T>, i: nat, cmp: (T, T) -> bool) returns (b: seq<T>)
    requires StrictWeakOrder(cmp) && i < |a|
    requires forall k {:trigger ParentIndex(k)} :: 0 < k < |a| && k != i ==> !cmp(a[k], a[ParentIndex(k)])
    requires ChildrenUnder(a, |a|, i, cmp)
    ensures |b| == |a| && Ordered(b, |b|, cmp)
    ensures multiset(b) == multiset(a)
  {
    b := a;
    var cur: nat := i;
    while true
      invariant cur < |b| && |b| == |a|
      invariant forall k {:trigger ParentIndex(k)} :: 0 < k < |b| && k != cur ==> !cmp(b[k], b[ParentIndex(k)])
      invariant ChildrenUnder(b, |b|, cur, cmp)
      invariant multiset(b) == multiset(a)
      decreases cur
    {
      var p := ParentIndex(cur);
      if p == cur || cmp(b[p], b[cur]) {
        Order(cmp, b[p], b[cur], b[cur]);
        break;
      }
      UpStep(b, p, cur, cmp);
      SwapKeeps(b, p, cur);
      b := b[p := b[cur]][cur := b[p]];
      cur := p;
    }
  }

  /**
   * siftDown on the heap's slice: move the element at slot i down,
   * swapping it with its preferred child while it is not preferred over
   * that child, within the first n slots. Answers whether it moved below
   * i, which happens exactly when i has a child and the element is not
   * preferred over the child it is compared with.
   */
  method SiftDown<T(!new)>(a: seq<T>, i: nat, n: nat, cmp: (T, T) -> bool) returns (b: seq<T>, moved: bool)
    requires StrictWeakOrder(cmp) && n <= |a|
    requires OrderedBut(a, n, i, cmp)
    requires i < |a| ==> ChildrenUnder(a, n, i, cmp)
    ensures |b| == |a| && Ordered(b, n, cmp)
    ensures multiset(b) == multiset(a)
    ensures moved <==> LeftChildIndex(i) < n && !cmp(a[i], a[Pick(a, i, n, cmp)])
  {
    b := a;
    var cur: nat := i;
    while true
      invariant i <= cur && |b| == |a|
      invariant OrderedBut(b, n, cur, cmp)
      invariant cur < |b| ==> ChildrenUnder(b, n, cur, cmp)
      invariant multiset(b) == multiset(a)
      invariant cur == i ==> b == a
      invariant cur > i ==> LeftChildIndex(i) < n && !cmp(a[i], a[Pick(a, i, n, cmp)])
      decreases n - cur
    {
      var next, stop;
      b, next, stop := DownTurn(b, cur, n, cmp);
      if stop {
        break;
      }
      cur := next;
    }
    moved := cur > i;
  }

  /**
   * One turn of siftDown's loop at slot c: stop if c has no child or is
   * preferred over the child it is compared with, and otherwise swap c with
   * that child and go on from there.
   */
  method DownTurn<T(!new)>(a: seq<T>, c: nat, n: nat, cmp: (T, T) -> bool) returns (b: seq<T>, next: nat, stop: bool)
    requires StrictWeakOrder(cmp) && n <= |a|
    requires OrderedBut(a, n, c, cmp) && (c < |a| ==> ChildrenUnder(a, n, c, cmp))
    ensures |b| == |a| && multiset(b) == multiset(a)
    ensures stop <==> LeftChildIndex(c) >= n || cmp(a[c], a[Pick(a, c, n, cmp)])
    ensures stop ==> b == a && Ordered(b, n, cmp)
    ensures !stop ==>
      next == Pick(a, c, n, cmp) && c < next < n &&
      OrderedBut(b, n, next, cmp) && ChildrenUnder(b, n, next, cmp)
  {
    b, next, stop := a, c, true;
    if LeftChildIndex(c) < n {
      var j := Pick(a, c, n, cmp);
      if !cmp(a[c], a[j]) {
        DownStep(a, n, c, j, cmp);
        SwapKeeps(a, c, j);
        b, next, stop := a[c := a[j]][j := a[c]], j, false;
      }
    }
    if stop {
      DownDone(a, n, c, cmp);
    }
  }

  /** Swapping two slots keeps the multiset of elements. */
  lemma SwapKeeps<T>(a: seq<T>, i: nat, j: nat)
    requires i < |a| && j < |a|
    ensures multiset(a[i := a[j]][j := a[i]]) == multiset(a)
  {
  }

  /** One swap of siftUp keeps its loop invariant at the parent. */
  lemma UpStep<T(!new)>(a: seq<T>, p: nat, c: nat, cmp: (T, T) -> bool)
    requires StrictWeakOrder(cmp) && 0 < c < |a| && p == ParentIndex(c) && !cmp(a[p], a[c])
    requires forall k {:trigger ParentIndex(k)} :: 0 < k < |a| && k != c ==> !cmp(a[k], a[ParentIndex(k)])
    requires ChildrenUnder(a, |a|, c, cmp)
    ensures var b := a[p := a[c]][c := a[p]];
      (forall k {:trigger ParentIndex(k)} :: 0 < k < |b| && k != p ==> !cmp(b[k], b[ParentIndex(k)])) && ChildrenUnder(b, |b|, p, cmp)
  {
    var b := a[p := a[c]][c := a[p]];
    forall k | 0 < k < |b| && k != p
      ensures !cmp(b[k], b[ParentIndex(k)])
    {
      var q := ParentIndex(k);
      if k == c {
      } else if q == c {
      } else if q == p {
        Order(cmp, a[k], a[p], a[c]);
      } else {
        assert b[k] == a[k] && b[q] == a[q];
      }
    }
    if p > 0 {
      var g := ParentIndex(p);
      forall k | 0 < k < |b| && ParentIndex(k) == p
        ensures !cmp(b[k], b[g])
      {
        assert !cmp(a[p], a[g]);
        if k != c {
          Order(cmp, a[k], a[p], a[g]);
        }
      }
    }
  }

  /** siftDown stops in heap order: slot c has no child, or is preferred over the child it is compared with. */
  lemma DownDone<T(!new)>(a: seq<T>, n: nat, c: nat, cmp: (T, T) -> bool)
    requires StrictWeakOrder(cmp) && n <= |a| && OrderedBut(a, n, c, cmp)
    requires LeftChildIndex(c) < n ==> cmp(a[c], a[Pick(a, c, n, cmp)])
    ensures Ordered(a, n, cmp)
  {
    forall k | 0 < k < n && ParentIndex(k) == c
      ensures !cmp(a[k], a[c])
    {
      var j := Pick(a, c, n, cmp);
      Order(cmp, a[k], a[c], a[j]);
    }
  }

  /** One swap of siftDown keeps its loop invariant at the child j. */
  lemma DownStep<T(!new)>(a: seq<T>, n: nat, c: nat, j: nat, cmp: (T, T) -> bool)
    requires StrictWeakOrder(cmp) && n <= |a| && LeftChildIndex(c) < n && j == Pick(a, c, n, cmp)
    requires !cmp(a[c], a[j])
    requires OrderedBut(a, n, c, cmp) && ChildrenUnder(a, n, c, cmp)
    ensures var b := a[c := a[j]][j := a[c]];
      OrderedBut(b, n, j, cmp) && ChildrenUnder(b, n, j, cmp)
  {
    var b := a[c := a[j]][j := a[c]];
    forall k | 0 < k < n && ParentIndex(k) != j
      ensures !cmp(b[k], b[ParentIndex(k)])
    {
      var q := ParentIndex(k);
      if k == j {
      } else if q == c {
        assert !cmp(a[k], a[j]);
      } else if k == c {
        assert !cmp(a[j], a[q]);
      } else {
        assert b[k] == a[k] && b[q] == a[q];
      }
    }
    forall k | 0 < k < n && ParentIndex(k) == j
      ensures !cmp(b[k], b[c])
    {
    }
  }
}
