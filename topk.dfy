/**
 * The top-k collector of top-k/core.go: a heap of at most k values ordered
 * by `less`, whose root is the least held value. A new value enters while
 * fewer than k are held, and otherwise replaces the root only when the
 * root is less than it; so the heap holds the k greatest values under
 * `less` (the k smallest when `less` is `>`).
 */
module TopKs {
  import opened Heaps

  /**
   * Held values are the best of the seen ones: no value that was seen and
   * is not held is greater under `less` than a held one.
   */
  ghost predicate Best<T(!new)>(held: multiset<T>, seen: multiset<T>, less: (T, T) -> bool)
  {
    held <= seen && forall y, x :: y in held && x in seen - held ==> !less(y, x)
  }

  class TopK<T(!new)> {
    const k: int
    const h: Heap<T>
    const less: (T, T) -> bool
    /** The values pushed and not popped since the collector was made. */
    ghost var seen: multiset<T>

    ghost predicate Valid()
      reads this, h
    {
      h.Valid() && h.cmp == less && 0 <= |h.data| <= k && multiset(h.data) <= seen
    }

    /**
     * The collector holds min(k, |seen|) values and they are the best of the
     * seen ones: true of a new collector and kept by Push, so it holds of a
     * collector that has only been pushed to.
     */
    ghost predicate Complete()
      reads this, h
    {
      Full(h.data, seen, k, less)
    }

    /** NewTopK: an empty heap with capacity k; a negative k makes Go's make panic. */
    constructor (k: int, less: (T, T) -> bool)
      requires k >= 0 && StrictWeakOrder(less)
      ensures Valid() && Complete() && fresh(h) && this.k == k && this.less == less
      ensures h.data == [] && seen == multiset{}
    {
      this.k := k;
      this.less := less;
      h := new Heap(k, less);
      seen := multiset{};
    }

    /** Len: never more than k. */
    function Len(): (n: int)
      reads this, h
      ensures n == |h.data|
      ensures Valid() ==> 0 <= n <= k
    {
      h.Len()
    }

    /**
     * Push: below k values the value is added; at k values the root gives
     * way to the value exactly when the root is less than it, and otherwise
     * nothing held changes. A complete collector stays complete.
     */
    method Push(value: T)
      requires Valid() && k >= 1
      modifies this, h
      ensures Valid()
      ensures seen == old(seen) + multiset{value}
      ensures old(|h.data|) < k ==> multiset(h.data) == old(multiset(h.data)) + multiset{value}
      ensures old(|h.data|) >= k && less(old(h.data[0]), value) ==>
        multiset(h.data) == old(multiset(h.data)) - multiset{old(h.data[0])} + multiset{value}
      ensures old(|h.data|) >= k && !less(old(h.data[0]), value) ==> h.data == old(h.data)
      ensures old(Complete()) ==> Complete()
    {
      ghost var d, s, full := h.data, seen, Complete();
      seen := seen + multiset{value};
      if h.Len() < k {
        h.Push(value);
        Added(d, h.data, s, value, k, less, full);
      } else {
        var r := h.Root();
        if less(r, value) {
          var _ := h.Pop(r);
          h.Push(value);
          Replaced(d, h.data, s, r, value, k, less, full);
        } else {
          Skipped(d, s, r, value, k, less, full);
        }
      }
    }

    /** Pop: the heap's Pop, which hands back the least held value and forgets it. */
    method Pop(zero: T) returns (value: T)
      requires Valid()
      modifies this, h
      ensures Valid()
      ensures old(|h.data|) == 0 ==> value == zero && h.data == [] && seen == old(seen)
      ensures old(|h.data|) > 0 ==>
        value == old(h.data[0]) && multiset(h.data) == old(multiset(h.data)) - multiset{value} &&
        seen == old(seen) - multiset{value} &&
        forall x :: x in h.data ==> !less(x, value)
    {
      value := h.Pop(zero);
      if old(|h.data|) > 0 {
        seen := seen - multiset{value};
        forall x | x in h.data
          ensures !less(x, value)
        {
          var q :| 0 <= q < |h.data| && h.data[q] == x;
        }
      }
    }
  }

  function Min(a: int, b: int): (m: int)
    ensures m <= a && m <= b && (m == a || m == b)
  {
    if a <= b then a else b
  }

  /** A collector holding d is full: min(k, |seen|) values, the best of those seen. */
  ghost predicate Full<T(!new)>(d: seq<T>, seen: multiset<T>, k: int, less: (T, T) -> bool)
  {
    |d| == Min(k, |seen|) && Best(multiset(d), seen, less)
  }

  /** Push below k: the value joins the held ones. */
  lemma Added<T(!new)>(d: seq<T>, d2: seq<T>, seen: multiset<T>, v: T, k: int, less: (T, T) -> bool, full: bool)
    requires multiset(d) <= seen && |d| < k && (full ==> Full(d, seen, k, less))
    requires |d2| == |d| + 1 && multiset(d2) == multiset(d) + multiset{v}
    ensures multiset(d2) <= seen + multiset{v} && |d2| <= k
    ensures full ==> Full(d2, seen + multiset{v}, k, less)
  {
    if full {
      var held := multiset(d);
      assert |seen - held| == |seen| - |held| == 0;
      assert (seen + multiset{v}) - (held + multiset{v}) == multiset{};
    }
  }

  /** Push at k with the root r less than v: v takes r's place, and r joins the discarded. */
  lemma Replaced<T(!new)>(d: seq<T>, d2: seq<T>, seen: multiset<T>, r: T, v: T, k: int, less: (T, T) -> bool,
                          full: bool)
    requires StrictWeakOrder(less) && multiset(d) <= seen && |d| == k && (full ==> Full(d, seen, k, less))
    requires |d| > 0 && r == d[0] && less(r, v) && forall q :: 0 <= q < |d| ==> !less(d[q], r)
    requires |d2| == |d| && multiset(d2) == multiset(d) - multiset{r} + multiset{v}
    ensures multiset(d2) <= seen + multiset{v} && |d2| <= k
    ensures full ==> Full(d2, seen + multiset{v}, k, less)
  {
    var held := multiset(d);
    assert r in held;
    if full {
      var h2 := held - multiset{r} + multiset{v};
      var s2 := seen + multiset{v};
      assert s2 - h2 == (seen - held) + multiset{r};
      forall y, x | y in h2 && x in s2 - h2
        ensures !less(y, x)
      {
        if y != v {
          assert y in d;
          var q :| 0 <= q < |d| && d[q] == y;
          assert !less(y, r);
        }
        Order(less, r, v, x);
        if x != r {
          assert x in seen - held;
          assert !less(r, x);
          if y != v {
            Order(less, y, r, x);
          }
        }
      }
    }
  }

  /** Push at k with the root r not less than v: v is discarded. */
  lemma Skipped<T(!new)>(d: seq<T>, seen: multiset<T>, r: T, v: T, k: int, less: (T, T) -> bool, full: bool)
    requires StrictWeakOrder(less) && multiset(d) <= seen && |d| == k && (full ==> Full(d, seen, k, less))
    requires |d| > 0 && r == d[0] && !less(r, v) && forall q :: 0 <= q < |d| ==> !less(d[q], r)
    ensures multiset(d) <= seen + multiset{v}
    ensures full ==> Full(d, seen + multiset{v}, k, less)
  {
    if full {
      var held := multiset(d);
      var s2 := seen + multiset{v};
      assert s2 - held == (seen - held) + multiset{v};
      forall y, x | y in held && x in s2 - held
        ensures !less(y, x)
      {
        if x == v {
          assert y in d;
          var q :| 0 <= q < |d| && d[q] == y;
          assert !less(y, r);
          Order(less, y, r, v);
        } else {
          assert x in seen - held;
        }
      }
    }
  }
}
