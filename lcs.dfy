/**
 * The dynamic-programming diff of diff/lcs.go.
 *
 * LcsDiff trims the common prefix and the common suffix, fills the LCS table
 * of what is left (createTable), then walks the table from the top-left
 * corner: equal elements become Common, and on a mismatch it emits Added
 * when skipping the new element keeps the LCS at least as long, Removed
 * otherwise. `LcsLen` is the LCS recurrence the table holds; the lemmas
 * below show that the script rebuilds both inputs, numbers its entries, and
 * keeps a longest common subsequence.
 *
 * The suffix scan of lcs.go is not bounded by what the prefix left over, so
 * it reads below index 0 or slices backwards on some inputs (LcsDiffAsWritten
 * and SuffixScanPanics); `LcsDiff` bounds the scan.
 */
module Lcs {
  import opened Wrappers
  import opened DiffResult

  function Max(a: int, b: int): int { if a >= b then a else b }

  // ---------------------------------------------------------------------
  // The LCS recurrence
  // ---------------------------------------------------------------------

  /** The length of a longest common subsequence of `a` and `b`, by the recurrence of createTable. */
  function LcsLen<T(==)>(a: seq<T>, b: seq<T>): nat
    decreases |a| + |b|
  {
    if |a| == 0 || |b| == 0 then 0
    else if a[0] == b[0] then 1 + LcsLen(a[1..], b[1..])
    else Max(LcsLen(a[1..], b), LcsLen(a, b[1..]))
  }

  /** The recurrence does not depend on which argument is the row. */
  lemma {:induction false} LcsSymmetric<T>(a: seq<T>, b: seq<T>)
    ensures LcsLen(a, b) == LcsLen(b, a)
    decreases |a| + |b|
  {
    if a != [] && b != [] {
      if a[0] == b[0] {
        LcsSymmetric(a[1..], b[1..]);
      } else {
        LcsSymmetric(a[1..], b);
        LcsSymmetric(a, b[1..]);
      }
    }
  }

  /** Dropping the first element of either side loses at most one from the LCS and never gains. */
  lemma {:induction false} LcsDrop<T>(a: seq<T>, b: seq<T>)
    ensures a != [] ==> LcsLen(a[1..], b) <= LcsLen(a, b) <= LcsLen(a[1..], b) + 1
    ensures b != [] ==> LcsLen(a, b[1..]) <= LcsLen(a, b) <= LcsLen(a, b[1..]) + 1
    decreases |a| + |b|
  {
    if a != [] && b != [] {
      LcsDrop(a[1..], b);
      LcsDrop(a, b[1..]);
      LcsDrop(a[1..], b[1..]);
    }
  }

  /** A common first element is always worth keeping. */
  lemma {:induction false} LcsPrefix<T>(c: seq<T>, a: seq<T>, b: seq<T>)
    ensures LcsLen(c + a, c + b) == |c| + LcsLen(a, b)
  {
    if c == [] {
      assert c + a == a && c + b == b;
    } else {
      assert (c + a)[0] == c[0] && (c + a)[1..] == c[1..] + a;
      assert (c + b)[0] == c[0] && (c + b)[1..] == c[1..] + b;
      LcsPrefix(c[1..], a, b);
    }
  }

  /** A common last element is always worth keeping. */
  lemma {:induction false} LcsLast<T>(a: seq<T>, b: seq<T>, x: T)
    ensures LcsLen(a + [x], b + [x]) == LcsLen(a, b) + 1
    decreases |a| + |b|
  {
    if a == [] {
      assert a + [x] == [x];
      LcsSingle(x, b + [x]);
    } else if b == [] {
      assert b + [x] == [x];
      LcsSingle(x, a + [x]);
      LcsSymmetric([x], a + [x]);
    } else {
      assert (a + [x])[0] == a[0] && (a + [x])[1..] == a[1..] + [x];
      assert (b + [x])[0] == b[0] && (b + [x])[1..] == b[1..] + [x];
      if a[0] == b[0] {
        LcsLast(a[1..], b[1..], x);
      } else {
        LcsLast(a[1..], b, x);
        LcsLast(a, b[1..], x);
      }
    }
  }

  /** A one-element sequence has an LCS of 1 with any sequence holding that element. */
  lemma {:induction false} LcsSingle<T>(x: T, s: seq<T>)
    requires x in s
    ensures LcsLen([x], s) == 1
  {
    if s[0] != x {
      LcsSingle(x, s[1..]);
      assert [x][1..] == [];
    }
  }

  /** A common suffix is always worth keeping. */
  lemma {:induction false} LcsSuffix<T>(a: seq<T>, b: seq<T>, c: seq<T>)
    ensures LcsLen(a + c, b + c) == LcsLen(a, b) + |c|
    decreases |c|
  {
    if c == [] {
      assert a + c == a && b + c == b;
    } else {
      var init, x := c[..|c| - 1], c[|c| - 1];
      assert a + c == (a + init) + [x] && b + c == (b + init) + [x];
      LcsLast(a + init, b + init, x);
      LcsSuffix(a, b, init);
    }
  }

  /** Two sequences with no element in common have an LCS of 0. */
  lemma {:induction false} LcsDisjoint<T>(a: seq<T>, b: seq<T>)
    requires forall i, j :: 0 <= i < |a| && 0 <= j < |b| ==> a[i] != b[j]
    ensures LcsLen(a, b) == 0
    decreases |a| + |b|
  {
    if a != [] && b != [] {
      LcsDisjoint(a[1..], b);
      LcsDisjoint(a, b[1..]);
    }
  }

  /**
   * Optimality: any script whose old side is `a` and whose new side is `b`
   * has at most LcsLen(a, b) Common entries.
   */
  lemma {:induction false} LcsIsLongest<T>(r: seq<Entry<T>>, a: seq<T>, b: seq<T>)
    requires OldSide(r) == a && NewSide(r) == b
    ensures CommonCount(r) <= LcsLen(a, b)
  {
    if r != [] {
      var e := r[0];
      if e.Common? {
        assert a == [e.data] + OldSide(r[1..]) && b == [e.data] + NewSide(r[1..]);
        LcsIsLongest(r[1..], a[1..], b[1..]);
      } else if e.Added? {
        assert b == [e.data] + NewSide(r[1..]);
        LcsIsLongest(r[1..], a, b[1..]);
        LcsDrop(a, b);
      } else {
        assert a == [e.data] + OldSide(r[1..]);
        LcsIsLongest(r[1..], a[1..], b);
        LcsDrop(a, b);
      }
    }
  }

  // ---------------------------------------------------------------------
  // createTable
  // ---------------------------------------------------------------------

  /**
   * createTable(column, row): a (|row| + 1) x (|column| + 1) table whose
   * entry [i, j] is the LCS length of row[i..] and column[j..], filled from
   * the bottom-right corner.
   */
  method CreateTable<T(==)>(column: seq<T>, row: seq<T>) returns (table: array2<int>)
    ensures table.Length0 == |row| + 1 && table.Length1 == |column| + 1
    ensures forall i, j :: 0 <= i <= |row| && 0 <= j <= |column| ==> table[i, j] == LcsLen(row[i..], column[j..])
  {
    table := new int[|row| + 1, |column| + 1]((i, j) => 0);
    var i := |row| - 1;
    while i >= 0
      invariant -1 <= i < |row|
      invariant forall r, c :: 0 <= r <= |row| && 0 <= c <= |column| && (r > i || c == |column|) ==>
                  table[r, c] == LcsLen(row[r..], column[c..])
    {
      var j := |column| - 1;
      while j >= 0
        invariant -1 <= j < |column|
        invariant forall r, c :: 0 <= r <= |row| && 0 <= c <= |column| && (r > i || c == |column| || (r == i && c > j)) ==>
                    table[r, c] == LcsLen(row[r..], column[c..])
      {
        assert row[i..][1..] == row[i + 1..] && column[j..][1..] == column[j + 1..];
        if row[i] == column[j] {
          table[i, j] := table[i + 1, j + 1] + 1;
        } else {
          table[i, j] := Max(table[i + 1, j], table[i, j + 1]);
        }
        j := j - 1;
      }
      i := i - 1;
    }
  }

  // ---------------------------------------------------------------------
  // The script LcsDiff produces
  // ---------------------------------------------------------------------

  /** Removed entries for s[from..], numbered from p + from (the tail loop over the old side). */
  function RemovedRun<T>(s: seq<T>, p: int, from: nat): seq<Entry<T>>
    requires from <= |s|
  {
    seq(|s| - from, k requires 0 <= k < |s| - from => Removed(Some(p + from + k), None, s[from + k]))
  }

  /** Added entries for s[from..], numbered from p + from (the tail loop over the new side). */
  function AddedRun<T>(s: seq<T>, p: int, from: nat): seq<Entry<T>>
    requires from <= |s|
  {
    seq(|s| - from, k requires 0 <= k < |s| - from => Added(None, Some(p + from + k), s[from + k]))
  }

  /** `count` Common entries for s[lo..], old indices from lo, new indices shifted by `delta`. */
  function CommonRun<T>(s: seq<T>, lo: nat, count: nat, delta: int): seq<Entry<T>>
    requires lo + count <= |s|
  {
    seq(count, k requires 0 <= k < count => Common(Some(lo + k), Some(lo + k + delta), s[lo + k]))
  }

  /** The table createTable builds for rows `b` and columns `a`, as a value: entry [r][c] is LcsLen(b[r..], a[c..]). */
  function Grid<T(==)>(a: seq<T>, b: seq<T>): (g: seq<seq<int>>)
    ensures |g| == |b| + 1
    ensures forall r, c :: 0 <= r <= |b| && 0 <= c <= |a| ==> Cell(g, r, c) == LcsLen(b[r..], a[c..])
  {
    seq(|b| + 1, r requires 0 <= r <= |b| => seq(|a| + 1, c requires 0 <= c <= |a| => LcsLen(b[r..], a[c..])))
  }

  /** Entry [r][c] of a table, 0 outside it. */
  function Cell(g: seq<seq<int>>, r: int, c: int): int
  {
    if 0 <= r < |g| && 0 <= c < |g[r]| then g[r][c] else 0
  }

  /**
   * The walk over the trimmed middles `a` (oldSeq) and `b` (newSeq) from (i, j)
   * reading the table `g`, with indices shifted by the prefix length `p`.
   */
  function Walk<T(==)>(a: seq<T>, b: seq<T>, g: seq<seq<int>>, p: int, i: nat, j: nat): seq<Entry<T>>
    requires i <= |a| && j <= |b|
    decreases |a| - i + |b| - j
  {
    if i < |a| && j < |b| then
      if a[i] == b[j] then [Common(Some(p + i), Some(p + j), b[j])] + Walk(a, b, g, p, i + 1, j + 1)
      else if Cell(g, j + 1, i) >= Cell(g, j, i + 1) then
        [Added(None, Some(p + j), b[j])] + Walk(a, b, g, p, i, j + 1)
      else [Removed(Some(p + i), None, a[i])] + Walk(a, b, g, p, i + 1, j)
    else RemovedRun(a, p, i) + AddedRun(b, p, j)
  }

  /** The length of the common prefix of a and b, scanning from k. */
  function PrefixFrom<T(==)>(a: seq<T>, b: seq<T>, k: nat): (p: nat)
    requires k <= |a| && k <= |b|
    ensures k <= p <= |a| && p <= |b|
    decreases |a| - k
  {
    if k < |a| && k < |b| && a[k] == b[k] then PrefixFrom(a, b, k + 1) else k
  }

  /** The prefix scan stops at the first mismatch: a[..p] == b[..p], and a[p] != b[p] if both go on. */
  lemma {:induction false} PrefixFromMeaning<T>(a: seq<T>, b: seq<T>, k: nat)
    requires k <= |a| && k <= |b| && a[..k] == b[..k]
    ensures var p := PrefixFrom(a, b, k);
      a[..p] == b[..p] && (p < |a| && p < |b| ==> a[p] != b[p])
    decreases |a| - k
  {
    if k < |a| && k < |b| && a[k] == b[k] {
      assert a[..k + 1] == a[..k] + [a[k]] && b[..k + 1] == b[..k] + [b[k]];
      PrefixFromMeaning(a, b, k + 1);
    }
  }

  /** The length of the common suffix of a and b that stays clear of their first p elements, scanning from s. */
  function SuffixFrom<T(==)>(a: seq<T>, b: seq<T>, p: nat, s: nat): (r: nat)
    requires p + s <= |a| && p + s <= |b|
    ensures s <= r && p + r <= |a| && p + r <= |b|
    decreases |a| - s
  {
    if p + s < |a| && p + s < |b| && a[|a| - 1 - s] == b[|b| - 1 - s] then SuffixFrom(a, b, p, s + 1) else s
  }

  /** The suffix scan stops at the first mismatch from the end, or where the prefix begins. */
  lemma {:induction false} SuffixFromMeaning<T>(a: seq<T>, b: seq<T>, p: nat, s: nat)
    requires p + s <= |a| && p + s <= |b| && a[|a| - s..] == b[|b| - s..]
    ensures var r := SuffixFrom(a, b, p, s);
      a[|a| - r..] == b[|b| - r..] && (p + r < |a| && p + r < |b| ==> a[|a| - 1 - r] != b[|b| - 1 - r])
    decreases |a| - s
  {
    if p + s < |a| && p + s < |b| && a[|a| - 1 - s] == b[|b| - 1 - s] {
      assert a[|a| - (s + 1)..] == [a[|a| - 1 - s]] + a[|a| - s..];
      assert b[|b| - (s + 1)..] == [b[|b| - 1 - s]] + b[|b| - s..];
      SuffixFromMeaning(a, b, p, s + 1);
    }
  }

  /** The script for trimmed prefix length p and suffix length s. */
  function Assemble<T(==)>(oldSeq: seq<T>, newSeq: seq<T>, p: nat, s: nat): seq<Entry<T>>
    requires p + s <= |oldSeq| && p + s <= |newSeq|
  {
    var a, b := oldSeq[p..|oldSeq| - s], newSeq[p..|newSeq| - s];
    CommonRun(oldSeq, 0, p, 0)
    + Walk(a, b, Grid(a, b), p, 0, 0)
    + CommonRun(oldSeq, |oldSeq| - s, s, |newSeq| - |oldSeq|)
  }

  /** The script LcsDiff returns. */
  function LcsDiffSpec<T(==)>(oldSeq: seq<T>, newSeq: seq<T>): seq<Entry<T>>
  {
    if |oldSeq| == 0 then AddedRun(newSeq, 0, 0)
    else if |newSeq| == 0 then RemovedRun(oldSeq, 0, 0)
    else
      var p := PrefixFrom(oldSeq, newSeq, 0);
      Assemble(oldSeq, newSeq, p, SuffixFrom(oldSeq, newSeq, p, 0))
  }

  // ---------------------------------------------------------------------
  // LcsDiff
  // ---------------------------------------------------------------------

  /**
   * LcsDiff with the suffix scan bounded by what the prefix leaves: the fast
   * paths for an empty side, the prefix and suffix trims, the table walk and
   * its two tail loops, then the suffix.
   */
  method LcsDiff<T(==)>(oldSeq: seq<T>, newSeq: seq<T>) returns (result: seq<Entry<T>>)
    ensures result == LcsDiffSpec(oldSeq, newSeq)
  {
    result := [];
    var oldLen, newLen := |oldSeq|, |newSeq|;
    if oldLen == 0 {
      for i := 0 to newLen
        invariant result == AddedRun(newSeq, 0, 0)[..i]
      {
        result := result + [Added(None, Some(i), newSeq[i])];
      }
      return;
    } else if newLen == 0 {
      for i := 0 to oldLen
        invariant result == RemovedRun(oldSeq, 0, 0)[..i]
      {
        result := result + [Removed(Some(i), None, oldSeq[i])];
      }
      return;
    }

    var prefixLen, suffixLen;
    result, prefixLen := CommonPrefix(oldSeq, newSeq);
    suffixLen := CommonSuffixLength(oldSeq, newSeq, prefixLen);
    var a, b := oldSeq[prefixLen..oldLen - suffixLen], newSeq[prefixLen..newLen - suffixLen];
    var middle := LcsWalk(oldSeq, newSeq, prefixLen, a, b);
    var tail := CommonSuffix(oldSeq, newSeq, suffixLen);
    result := result + middle + tail;
    AssembleParts(oldSeq, newSeq, prefixLen, suffixLen, a, b);
    SpecAssembled(oldSeq, newSeq, prefixLen, suffixLen);
  }

  /** The prefix loop of LcsDiff: a Common entry for each element of the common prefix. */
  method CommonPrefix<T(==)>(oldSeq: seq<T>, newSeq: seq<T>) returns (result: seq<Entry<T>>, prefixLen: nat)
    ensures prefixLen == PrefixFrom(oldSeq, newSeq, 0)
    ensures result == CommonRun(oldSeq, 0, prefixLen, 0)
  {
    result := [];
    var i, j := 0, 0;
    prefixLen := 0;
    while i < |oldSeq| && j < |newSeq| && oldSeq[j] == newSeq[i]
      invariant i == j == prefixLen <= |oldSeq| && prefixLen <= |newSeq|
      invariant PrefixFrom(oldSeq, newSeq, prefixLen) == PrefixFrom(oldSeq, newSeq, 0)
      invariant result == CommonRun(oldSeq, 0, prefixLen, 0)
    {
      CommonRunSnoc(oldSeq, 0, prefixLen, 0);
      result := result + [Common(Some(i), Some(j), oldSeq[i])];
      prefixLen := prefixLen + 1;
      i := i + 1;
      j := j + 1;
    }
  }

  /** The suffix scan of LcsDiff, bounded by what the prefix leaves of either side. */
  method CommonSuffixLength<T(==)>(oldSeq: seq<T>, newSeq: seq<T>, prefixLen: nat) returns (suffixLen: nat)
    requires prefixLen <= |oldSeq| && prefixLen <= |newSeq|
    ensures suffixLen == SuffixFrom(oldSeq, newSeq, prefixLen, 0)
  {
    suffixLen := 0;
    while suffixLen < |oldSeq| - prefixLen && suffixLen < |newSeq| - prefixLen
          && oldSeq[|oldSeq| - 1 - suffixLen] == newSeq[|newSeq| - 1 - suffixLen]
      invariant prefixLen + suffixLen <= |oldSeq| && prefixLen + suffixLen <= |newSeq|
      invariant SuffixFrom(oldSeq, newSeq, prefixLen, suffixLen) == SuffixFrom(oldSeq, newSeq, prefixLen, 0)
    {
      suffixLen := suffixLen + 1;
    }
  }

  /** The last loop of LcsDiff: a Common entry for each element of the common suffix. */
  method CommonSuffix<T(==)>(oldSeq: seq<T>, newSeq: seq<T>, suffixLen: nat) returns (tail: seq<Entry<T>>)
    requires suffixLen <= |oldSeq| && suffixLen <= |newSeq|
    ensures tail == CommonRun(oldSeq, |oldSeq| - suffixLen, suffixLen, |newSeq| - |oldSeq|)
  {
    tail := [];
    var oldStart, newStart := |oldSeq| - suffixLen, |newSeq| - suffixLen;
    for k := 0 to suffixLen
      invariant tail == CommonRun(oldSeq, oldStart, k, |newSeq| - |oldSeq|)
    {
      CommonRunSnoc(oldSeq, oldStart, k, |newSeq| - |oldSeq|);
      tail := tail + [Common(Some(oldStart + k), Some(newStart + k), oldSeq[oldStart + k])];
    }
  }

  /**
   * The middle part of LcsDiff: build the table for the trimmed middles `a`
   * and `b` (which start at index `p` of oldSeq and newSeq), walk it, then
   * emit what is left of either side.
   */
  method LcsWalk<T(==)>(oldSeq: seq<T>, newSeq: seq<T>, p: nat, a: seq<T>, b: seq<T>) returns (part: seq<Entry<T>>)
    requires p + |a| <= |oldSeq| && a == oldSeq[p..p + |a|]
    requires p + |b| <= |newSeq| && b == newSeq[p..p + |b|]
    ensures part == Walk(a, b, Grid(a, b), p, 0, 0)
  {
    var table := CreateTable(a, b);
    ghost var g := Grid(a, b);
    var i, j;
    part, i, j := WalkTable(oldSeq, newSeq, p, a, b, table, g);
    var removed := RemovedTail(oldSeq, p, a, i);
    var added := AddedTail(newSeq, p, b, j);
    WalkDone(part, a, b, g, p, i, j);
    AppendAssoc(part, removed, added);
    part := part + removed + added;
  }

  /** The Removed loop after the walk: one Removed entry for each of a[i..]. */
  method RemovedTail<T>(oldSeq: seq<T>, p: nat, a: seq<T>, i0: nat) returns (tail: seq<Entry<T>>)
    requires p + |a| <= |oldSeq| && a == oldSeq[p..p + |a|] && i0 <= |a|
    ensures tail == RemovedRun(a, p, i0)
  {
    tail := [];
    var i := i0;
    while i < |a|
      invariant i0 <= i <= |a|
      invariant tail + RemovedRun(a, p, i) == RemovedRun(a, p, i0)
    {
      var oldIndex := i + p;
      RemovedAdvance(tail, a, p, i);
      tail := tail + [Removed(Some(oldIndex), None, oldSeq[oldIndex])];
      i := i + 1;
    }
    assert RemovedRun(a, p, i) == [] && tail + [] == tail;
  }

  /** The Added loop after the walk: one Added entry for each of b[j..]. */
  method AddedTail<T>(newSeq: seq<T>, p: nat, b: seq<T>, j0: nat) returns (tail: seq<Entry<T>>)
    requires p + |b| <= |newSeq| && b == newSeq[p..p + |b|] && j0 <= |b|
    ensures tail == AddedRun(b, p, j0)
  {
    tail := [];
    var j := j0;
    while j < |b|
      invariant j0 <= j <= |b|
      invariant tail + AddedRun(b, p, j) == AddedRun(b, p, j0)
    {
      var newIndex := j + p;
      AddedAdvance(tail, b, p, j);
      tail := tail + [Added(None, Some(newIndex), newSeq[newIndex])];
      j := j + 1;
    }
    assert AddedRun(b, p, j) == [] && tail + [] == tail;
  }

  /**
   * The main loop of LcsDiff: from (0, 0), take a Common entry on equal
   * elements, else an Added entry when table[j + 1, i] >= table[j, i + 1],
   * else a Removed entry, until one side is used up.
   */
  method WalkTable<T(==)>(oldSeq: seq<T>, newSeq: seq<T>, p: nat, a: seq<T>, b: seq<T>, table: array2<int>, ghost g: seq<seq<int>>)
    returns (part: seq<Entry<T>>, i: nat, j: nat)
    requires p + |a| <= |oldSeq| && forall k :: 0 <= k < |a| ==> a[k] == oldSeq[p + k]
    requires p + |b| <= |newSeq| && forall k :: 0 <= k < |b| ==> b[k] == newSeq[p + k]
    requires table.Length0 == |b| + 1 && table.Length1 == |a| + 1
    requires forall r, c :: 0 <= r <= |b| && 0 <= c <= |a| ==> table[r, c] == Cell(g, r, c)
    ensures i <= |a| && j <= |b| && !(i < |a| && j < |b|)
    ensures part + Walk(a, b, g, p, i, j) == Walk(a, b, g, p, 0, 0)
  {
    part, i, j := [], 0, 0;
    ghost var goal := Walk(a, b, g, p, 0, 0);
    while i < |a| && j < |b|
      invariant i <= |a| && j <= |b|
      invariant part + Walk(a, b, g, p, i, j) == goal
    {
      var oldIndex := i + p;
      var newIndex := j + p;
      if oldSeq[oldIndex] == newSeq[newIndex] {
        var e := Common(Some(oldIndex), Some(newIndex), newSeq[newIndex]);
        WalkCommonStep(part, a, b, g, p, i, j, goal, e);
        part := part + [e];
        j := j + 1;
        i := i + 1;
      } else if table[j + 1, i] >= table[j, i + 1] {
        var e := Added(None, Some(newIndex), newSeq[newIndex]);
        WalkAddedStep(part, a, b, g, p, i, j, goal, e);
        part := part + [e];
        j := j + 1;
      } else {
        var e := Removed(Some(oldIndex), None, oldSeq[oldIndex]);
        WalkRemovedStep(part, a, b, g, p, i, j, goal, e);
        part := part + [e];
        i := i + 1;
      }
    }
  }

  /** Assemble, with the trimmed middles named. */
  lemma AssembleParts<T>(oldSeq: seq<T>, newSeq: seq<T>, p: nat, s: nat, a: seq<T>, b: seq<T>)
    requires p + s <= |oldSeq| && p + s <= |newSeq|
    requires a == oldSeq[p..|oldSeq| - s] && b == newSeq[p..|newSeq| - s]
    ensures Assemble(oldSeq, newSeq, p, s)
            == CommonRun(oldSeq, 0, p, 0) + Walk(a, b, Grid(a, b), p, 0, 0) + CommonRun(oldSeq, |oldSeq| - s, s, |newSeq| - |oldSeq|)
  {
  }

  /** Concatenation is associative (a step the loops take explicitly). */
  lemma AppendAssoc<T>(x: seq<T>, y: seq<T>, z: seq<T>)
    ensures (x + y) + z == x + (y + z)
  {
  }

  /** A Common run one longer is the shorter run and one more entry. */
  lemma CommonRunSnoc<T>(s: seq<T>, lo: nat, count: nat, delta: int)
    requires lo + count < |s|
    ensures CommonRun(s, lo, count + 1, delta)
            == CommonRun(s, lo, count, delta) + [Common(Some(lo + count), Some(lo + count + delta), s[lo + count])]
  {
  }

  /** With both sides non-empty, the script is the one assembled from the two scans. */
  lemma SpecAssembled<T>(oldSeq: seq<T>, newSeq: seq<T>, p: nat, s: nat)
    requires |oldSeq| > 0 && |newSeq| > 0
    requires p == PrefixFrom(oldSeq, newSeq, 0) && p + s <= |oldSeq| && p + s <= |newSeq|
    requires s == SuffixFrom(oldSeq, newSeq, p, 0)
    ensures LcsDiffSpec(oldSeq, newSeq) == Assemble(oldSeq, newSeq, p, s)
  {
  }

  /** A Common step of the main loop keeps the walk still to go in step with the goal. */
  lemma WalkCommonStep<T>(r: seq<Entry<T>>, a: seq<T>, b: seq<T>, g: seq<seq<int>>, p: int, i: nat, j: nat,
                          goal: seq<Entry<T>>, e: Entry<T>)
    requires i < |a| && j < |b| && a[i] == b[j]
    requires e == Common(Some(p + i), Some(p + j), b[j])
    requires r + Walk(a, b, g, p, i, j) == goal
    ensures (r + [e]) + Walk(a, b, g, p, i + 1, j + 1) == goal
  {
    AppendAssoc(r, [e], Walk(a, b, g, p, i + 1, j + 1));
  }

  /** An Added step of the main loop keeps the walk still to go in step with the goal. */
  lemma WalkAddedStep<T>(r: seq<Entry<T>>, a: seq<T>, b: seq<T>, g: seq<seq<int>>, p: int, i: nat, j: nat,
                         goal: seq<Entry<T>>, e: Entry<T>)
    requires i < |a| && j < |b| && a[i] != b[j]
    requires Cell(g, j + 1, i) >= Cell(g, j, i + 1)
    requires e == Added(None, Some(p + j), b[j])
    requires r + Walk(a, b, g, p, i, j) == goal
    ensures (r + [e]) + Walk(a, b, g, p, i, j + 1) == goal
  {
    AppendAssoc(r, [e], Walk(a, b, g, p, i, j + 1));
  }

  /** A Removed step of the main loop keeps the walk still to go in step with the goal. */
  lemma WalkRemovedStep<T>(r: seq<Entry<T>>, a: seq<T>, b: seq<T>, g: seq<seq<int>>, p: int, i: nat, j: nat,
                           goal: seq<Entry<T>>, e: Entry<T>)
    requires i < |a| && j < |b| && a[i] != b[j]
    requires Cell(g, j + 1, i) < Cell(g, j, i + 1)
    requires e == Removed(Some(p + i), None, a[i])
    requires r + Walk(a, b, g, p, i, j) == goal
    ensures (r + [e]) + Walk(a, b, g, p, i + 1, j) == goal
  {
    AppendAssoc(r, [e], Walk(a, b, g, p, i + 1, j));
  }

  /** When one side is used up, the rest of the walk is the two tail runs. */
  lemma WalkDone<T>(r: seq<Entry<T>>, a: seq<T>, b: seq<T>, g: seq<seq<int>>, p: int, i: nat, j: nat)
    requires i <= |a| && j <= |b| && !(i < |a| && j < |b|)
    ensures r + Walk(a, b, g, p, i, j) == r + (RemovedRun(a, p, i) + AddedRun(b, p, j))
  {
  }

  /** One step of the Removed tail loop. */
  lemma RemovedAdvance<T>(r: seq<Entry<T>>, a: seq<T>, p: int, i: nat)
    requires i < |a|
    ensures (r + [Removed(Some(p + i), None, a[i])]) + RemovedRun(a, p, i + 1) == r + RemovedRun(a, p, i)
  {
    assert RemovedRun(a, p, i) == [Removed(Some(p + i), None, a[i])] + RemovedRun(a, p, i + 1);
  }

  /** An Added run is its first entry and the run after it. */
  lemma AddedCons<T>(b: seq<T>, p: int, j: nat)
    requires j < |b|
    ensures AddedRun(b, p, j) == [Added(None, Some(p + j), b[j])] + AddedRun(b, p, j + 1)
  {
  }

  /** One step of the Added tail loop. */
  lemma AddedAdvance<T>(r: seq<Entry<T>>, b: seq<T>, p: int, j: nat)
    requires j < |b|
    ensures (r + [Added(None, Some(p + j), b[j])]) + AddedRun(b, p, j + 1) == r + AddedRun(b, p, j)
  {
    AddedCons(b, p, j);
  }

  // ---------------------------------------------------------------------
  // What the script means
  // ---------------------------------------------------------------------

  /** A Removed run is its first entry and the run after it. */
  lemma RemovedCons<T>(s: seq<T>, p: int, from: nat)
    requires from < |s|
    ensures RemovedRun(s, p, from)[1..] == RemovedRun(s, p, from + 1)
    ensures RemovedRun(s, p, from)[0] == Removed(Some(p + from), None, s[from])
  {
  }

  /** A Removed run rebuilds s[from..] on the old side and nothing on the new side. */
  lemma {:induction false} RemovedRunSides<T>(s: seq<T>, p: int, from: nat)
    requires from <= |s|
    ensures OldSide(RemovedRun(s, p, from)) == s[from..] && NewSide(RemovedRun(s, p, from)) == []
    decreases |s| - from
  {
    if from < |s| {
      RemovedCons(s, p, from);
      RemovedRunSides(s, p, from + 1);
      assert s[from..] == [s[from]] + s[from + 1..];
    }
  }

  /** A Removed run has no Common entry and is numbered from p + from on the old side. */
  lemma {:induction false} RemovedRunNumbered<T>(s: seq<T>, p: int, from: nat, n: int)
    requires from <= |s|
    ensures CommonCount(RemovedRun(s, p, from)) == 0
    ensures Numbered(RemovedRun(s, p, from), p + from, n)
    decreases |s| - from
  {
    if from < |s| {
      RemovedCons(s, p, from);
      RemovedRunNumbered(s, p, from + 1, n);
    }
  }

  /** A Removed run rebuilds s[from..] on the old side, nothing on the new side, and is numbered from p + from. */
  lemma RemovedRunFacts<T>(s: seq<T>, p: int, from: nat, n: int)
    requires from <= |s|
    ensures OldSide(RemovedRun(s, p, from)) == s[from..] && NewSide(RemovedRun(s, p, from)) == []
    ensures CommonCount(RemovedRun(s, p, from)) == 0
    ensures Numbered(RemovedRun(s, p, from), p + from, n)
  {
    RemovedRunSides(s, p, from);
    RemovedRunNumbered(s, p, from, n);
  }

  /** An Added run rebuilds s[from..] on the new side and nothing on the old side. */
  lemma {:induction false} AddedRunSides<T>(s: seq<T>, p: int, from: nat)
    requires from <= |s|
    ensures OldSide(AddedRun(s, p, from)) == [] && NewSide(AddedRun(s, p, from)) == s[from..]
    decreases |s| - from
  {
    if from < |s| {
      AddedCons(s, p, from);
      assert AddedRun(s, p, from)[1..] == AddedRun(s, p, from + 1);
      AddedRunSides(s, p, from + 1);
      assert s[from..] == [s[from]] + s[from + 1..];
    }
  }

  /** An Added run has no Common entry and is numbered from p + from on the new side. */
  lemma {:induction false} AddedRunNumbered<T>(s: seq<T>, p: int, from: nat, o: int)
    requires from <= |s|
    ensures CommonCount(AddedRun(s, p, from)) == 0
    ensures Numbered(AddedRun(s, p, from), o, p + from)
    decreases |s| - from
  {
    if from < |s| {
      AddedCons(s, p, from);
      assert AddedRun(s, p, from)[1..] == AddedRun(s, p, from + 1);
      AddedRunNumbered(s, p, from + 1, o);
    }
  }

  /** An Added run rebuilds s[from..] on the new side, nothing on the old side, and is numbered from p + from. */
  lemma AddedRunFacts<T>(s: seq<T>, p: int, from: nat, o: int)
    requires from <= |s|
    ensures OldSide(AddedRun(s, p, from)) == [] && NewSide(AddedRun(s, p, from)) == s[from..]
    ensures CommonCount(AddedRun(s, p, from)) == 0
    ensures Numbered(AddedRun(s, p, from), o, p + from)
  {
    AddedRunSides(s, p, from);
    AddedRunNumbered(s, p, from, o);
  }

  /** A Common run is its first entry and the run after it. */
  lemma CommonCons<T>(s: seq<T>, lo: nat, count: nat, delta: int)
    requires lo + count <= |s| && count > 0
    ensures CommonRun(s, lo, count, delta)[1..] == CommonRun(s, lo + 1, count - 1, delta)
    ensures CommonRun(s, lo, count, delta)[0] == Common(Some(lo), Some(lo + delta), s[lo])
  {
  }

  /** A Common run rebuilds s[lo..lo + count] on both sides. */
  lemma {:induction false} CommonRunSides<T>(s: seq<T>, lo: nat, count: nat, delta: int)
    requires lo + count <= |s|
    ensures OldSide(CommonRun(s, lo, count, delta)) == s[lo..lo + count]
    ensures NewSide(CommonRun(s, lo, count, delta)) == s[lo..lo + count]
    decreases count
  {
    if count > 0 {
      CommonCons(s, lo, count, delta);
      CommonRunSides(s, lo + 1, count - 1, delta);
      assert s[lo..lo + count] == [s[lo]] + s[lo + 1..lo + count];
    }
  }

  /** Every entry of a Common run counts. */
  lemma {:induction false} CommonRunCount<T>(s: seq<T>, lo: nat, count: nat, delta: int)
    requires lo + count <= |s|
    ensures CommonCount(CommonRun(s, lo, count, delta)) == count
    decreases count
  {
    if count > 0 {
      CommonCons(s, lo, count, delta);
      CommonRunCount(s, lo + 1, count - 1, delta);
    }
  }

  /** A Common run is numbered from (lo, lo + delta). */
  lemma {:induction false} CommonRunNumbered<T>(s: seq<T>, lo: nat, count: nat, delta: int)
    requires lo + count <= |s|
    ensures Numbered(CommonRun(s, lo, count, delta), lo, lo + delta)
    decreases count
  {
    if count > 0 {
      CommonCons(s, lo, count, delta);
      CommonRunNumbered(s, lo + 1, count - 1, delta);
    }
  }

  /** A Common run rebuilds s[lo..lo + count] on both sides and is numbered from (lo, lo + delta). */
  lemma CommonRunFacts<T>(s: seq<T>, lo: nat, count: nat, delta: int)
    requires lo + count <= |s|
    ensures OldSide(CommonRun(s, lo, count, delta)) == s[lo..lo + count]
    ensures NewSide(CommonRun(s, lo, count, delta)) == s[lo..lo + count]
    ensures CommonCount(CommonRun(s, lo, count, delta)) == count
    ensures Numbered(CommonRun(s, lo, count, delta), lo, lo + delta)
  {
    CommonRunSides(s, lo, count, delta);
    CommonRunCount(s, lo, count, delta);
    CommonRunNumbered(s, lo, count, delta);
  }

  /** The walk from (i, j) rebuilds a[i..] on the old side and b[j..] on the new side. */
  lemma {:induction false} WalkSides<T>(a: seq<T>, b: seq<T>, g: seq<seq<int>>, p: int, i: nat, j: nat)
    requires i <= |a| && j <= |b|
    ensures OldSide(Walk(a, b, g, p, i, j)) == a[i..] && NewSide(Walk(a, b, g, p, i, j)) == b[j..]
    decreases |a| - i + |b| - j
  {
    var w := Walk(a, b, g, p, i, j);
    if i < |a| && j < |b| {
      assert a[i..] == [a[i]] + a[i + 1..] && b[j..] == [b[j]] + b[j + 1..];
      if a[i] == b[j] {
        assert w[1..] == Walk(a, b, g, p, i + 1, j + 1);
        WalkSides(a, b, g, p, i + 1, j + 1);
      } else if Cell(g, j + 1, i) >= Cell(g, j, i + 1) {
        assert w[1..] == Walk(a, b, g, p, i, j + 1);
        WalkSides(a, b, g, p, i, j + 1);
      } else {
        assert w[1..] == Walk(a, b, g, p, i + 1, j);
        WalkSides(a, b, g, p, i + 1, j);
      }
    } else {
      RemovedRunFacts(a, p, i, p + j);
      AddedRunFacts(b, p, j, p + |a|);
      OldSideAppend(RemovedRun(a, p, i), AddedRun(b, p, j));
      NewSideAppend(RemovedRun(a, p, i), AddedRun(b, p, j));
    }
  }

  /** The walk from (i, j) numbers its entries from (p + i, p + j). */
  lemma {:induction false} WalkNumbered<T>(a: seq<T>, b: seq<T>, g: seq<seq<int>>, p: int, i: nat, j: nat)
    requires i <= |a| && j <= |b|
    ensures Numbered(Walk(a, b, g, p, i, j), p + i, p + j)
    decreases |a| - i + |b| - j
  {
    var w := Walk(a, b, g, p, i, j);
    if i < |a| && j < |b| {
      if a[i] == b[j] {
        assert w[1..] == Walk(a, b, g, p, i + 1, j + 1);
        WalkNumbered(a, b, g, p, i + 1, j + 1);
      } else if Cell(g, j + 1, i) >= Cell(g, j, i + 1) {
        assert w[1..] == Walk(a, b, g, p, i, j + 1);
        WalkNumbered(a, b, g, p, i, j + 1);
      } else {
        assert w[1..] == Walk(a, b, g, p, i + 1, j);
        WalkNumbered(a, b, g, p, i + 1, j);
      }
    } else {
      RemovedRunFacts(a, p, i, p + j);
      AddedRunFacts(b, p, j, p + |a|);
      NumberedAppend(RemovedRun(a, p, i), AddedRun(b, p, j), p + i, p + j);
    }
  }

  /** The walk from (i, j) keeps exactly LcsLen(a[i..], b[j..]) Common entries. */
  lemma {:induction false} WalkCount<T>(a: seq<T>, b: seq<T>, g: seq<seq<int>>, p: int, i: nat, j: nat)
    requires i <= |a| && j <= |b|
    requires g == Grid(a, b)
    ensures CommonCount(Walk(a, b, g, p, i, j)) == LcsLen(a[i..], b[j..])
    decreases |a| - i + |b| - j
  {
    var w := Walk(a, b, g, p, i, j);
    if i < |a| && j < |b| {
      assert a[i..][0] == a[i] && a[i..][1..] == a[i + 1..];
      assert b[j..][0] == b[j] && b[j..][1..] == b[j + 1..];
      if a[i] == b[j] {
        assert w[1..] == Walk(a, b, g, p, i + 1, j + 1);
        WalkCount(a, b, g, p, i + 1, j + 1);
      } else {
        LcsSymmetric(b[j + 1..], a[i..]);
        LcsSymmetric(b[j..], a[i + 1..]);
        assert Cell(g, j + 1, i) == LcsLen(b[j + 1..], a[i..]) && Cell(g, j, i + 1) == LcsLen(b[j..], a[i + 1..]);
        if Cell(g, j + 1, i) >= Cell(g, j, i + 1) {
          assert w[1..] == Walk(a, b, g, p, i, j + 1);
          WalkCount(a, b, g, p, i, j + 1);
        } else {
          assert w[1..] == Walk(a, b, g, p, i + 1, j);
          WalkCount(a, b, g, p, i + 1, j);
        }
      }
    } else {
      RemovedRunFacts(a, p, i, p + j);
      AddedRunFacts(b, p, j, p + |a|);
      CommonCountAppend(RemovedRun(a, p, i), AddedRun(b, p, j));
    }
  }

  /** The scans' results: a common prefix of length p and a common suffix of length s that do not overlap. */
  lemma Scans<T>(oldSeq: seq<T>, newSeq: seq<T>, p: nat, s: nat)
    requires p == PrefixFrom(oldSeq, newSeq, 0) && s == SuffixFrom(oldSeq, newSeq, p, 0)
    ensures p + s <= |oldSeq| && p + s <= |newSeq|
    ensures oldSeq[..p] == newSeq[..p] && oldSeq[|oldSeq| - s..] == newSeq[|newSeq| - s..]
  {
    PrefixScan(oldSeq, newSeq, p);
    SuffixScan(oldSeq, newSeq, p, s);
  }

  /** The prefix scan's result: a common prefix. */
  lemma PrefixScan<T>(oldSeq: seq<T>, newSeq: seq<T>, p: nat)
    requires p == PrefixFrom(oldSeq, newSeq, 0)
    ensures p <= |oldSeq| && p <= |newSeq| && oldSeq[..p] == newSeq[..p]
  {
    PrefixFromMeaning(oldSeq, newSeq, 0);
  }

  /** The suffix scan's result: a common suffix clear of the prefix. */
  lemma SuffixScan<T>(oldSeq: seq<T>, newSeq: seq<T>, p: nat, s: nat)
    requires p <= |oldSeq| && p <= |newSeq| && s == SuffixFrom(oldSeq, newSeq, p, 0)
    ensures p + s <= |oldSeq| && p + s <= |newSeq| && oldSeq[|oldSeq| - s..] == newSeq[|newSeq| - s..]
  {
    SuffixFromMeaning(oldSeq, newSeq, p, 0);
  }

  /** A sequence is its three slices at i and j put back together. */
  lemma SplitThree<T>(s: seq<T>, i: nat, j: nat)
    requires i <= j <= |s|
    ensures s == s[..i] + s[i..j] + s[j..]
  {
  }

  /** The sides and the Common count of three parts put together. */
  lemma Concat3<T>(head: seq<Entry<T>>, mid: seq<Entry<T>>, tail: seq<Entry<T>>)
    ensures OldSide(head + mid + tail) == OldSide(head) + OldSide(mid) + OldSide(tail)
    ensures NewSide(head + mid + tail) == NewSide(head) + NewSide(mid) + NewSide(tail)
    ensures CommonCount(head + mid + tail) == CommonCount(head) + CommonCount(mid) + CommonCount(tail)
  {
    OldSideAppend(head, mid);
    OldSideAppend(head + mid, tail);
    NewSideAppend(head, mid);
    NewSideAppend(head + mid, tail);
    CommonCountAppend(head, mid);
    CommonCountAppend(head + mid, tail);
  }

  /** The Common run of a prefix rebuilds that prefix on both sides. */
  lemma CommonRunHead<T>(s: seq<T>, count: nat)
    requires count <= |s|
    ensures OldSide(CommonRun(s, 0, count, 0)) == s[..count] && NewSide(CommonRun(s, 0, count, 0)) == s[..count]
    ensures CommonCount(CommonRun(s, 0, count, 0)) == count
  {
    CommonRunFacts(s, 0, count, 0);
    assert s[0..0 + count] == s[..count];
  }

  /** The Common run of a suffix rebuilds that suffix on both sides. */
  lemma CommonRunTail<T>(s: seq<T>, count: nat, delta: int)
    requires count <= |s|
    ensures OldSide(CommonRun(s, |s| - count, count, delta)) == s[|s| - count..]
    ensures NewSide(CommonRun(s, |s| - count, count, delta)) == s[|s| - count..]
    ensures CommonCount(CommonRun(s, |s| - count, count, delta)) == count
  {
    CommonRunFacts(s, |s| - count, count, delta);
    assert s[|s| - count..|s| - count + count] == s[|s| - count..];
  }

  /** The old side of three parts that rebuild three consecutive slices of x is x. */
  lemma OldOfParts<T>(head: seq<Entry<T>>, mid: seq<Entry<T>>, tail: seq<Entry<T>>, x: seq<T>, i: nat, j: nat)
    requires i <= j <= |x|
    requires OldSide(head) == x[..i] && OldSide(mid) == x[i..j] && OldSide(tail) == x[j..]
    ensures OldSide(head + mid + tail) == x
  {
    Concat3(head, mid, tail);
    SplitThree(x, i, j);
  }

  /** The new side of three parts that rebuild three consecutive slices of y is y. */
  lemma NewOfParts<T>(head: seq<Entry<T>>, mid: seq<Entry<T>>, tail: seq<Entry<T>>, y: seq<T>, i: nat, j: nat)
    requires i <= j <= |y|
    requires NewSide(head) == y[..i] && NewSide(mid) == y[i..j] && NewSide(tail) == y[j..]
    ensures NewSide(head + mid + tail) == y
  {
    Concat3(head, mid, tail);
    SplitThree(y, i, j);
  }

  /**
   * The walk between the trimmed prefix and suffix, with what it rebuilds,
   * its numbering and its Common count, handed back without its definition.
   */
  lemma Middle<T>(oldSeq: seq<T>, newSeq: seq<T>, p: nat, s: nat) returns (mid: seq<Entry<T>>)
    requires p + s <= |oldSeq| && p + s <= |newSeq|
    ensures Assemble(oldSeq, newSeq, p, s)
            == CommonRun(oldSeq, 0, p, 0) + mid + CommonRun(oldSeq, |oldSeq| - s, s, |newSeq| - |oldSeq|)
    ensures OldSide(mid) == oldSeq[p..|oldSeq| - s] && NewSide(mid) == newSeq[p..|newSeq| - s]
    ensures Numbered(mid, p, p)
    ensures CommonCount(mid) == LcsLen(oldSeq[p..|oldSeq| - s], newSeq[p..|newSeq| - s])
  {
    var a, b := oldSeq[p..|oldSeq| - s], newSeq[p..|newSeq| - s];
    AssembleParts(oldSeq, newSeq, p, s, a, b);
    WalkAll(a, b, p);
    mid := Walk(a, b, Grid(a, b), p, 0, 0);
  }

  /** The assembled script rebuilds oldSeq on its old side. */
  lemma AssembledOldSide<T>(oldSeq: seq<T>, newSeq: seq<T>, p: nat, s: nat)
    requires p + s <= |oldSeq| && p + s <= |newSeq|
    ensures OldSide(Assemble(oldSeq, newSeq, p, s)) == oldSeq
  {
    var oe := |oldSeq| - s;
    var mid := Middle(oldSeq, newSeq, p, s);
    var head, tail := CommonRun(oldSeq, 0, p, 0), CommonRun(oldSeq, oe, s, |newSeq| - |oldSeq|);
    CommonRunHead(oldSeq, p);
    CommonRunTail(oldSeq, s, |newSeq| - |oldSeq|);
    OldOfParts(head, mid, tail, oldSeq, p, oe);
  }

  /** The assembled script rebuilds newSeq on its new side when the trimmed prefix and suffix are common. */
  lemma AssembledNewSide<T>(oldSeq: seq<T>, newSeq: seq<T>, p: nat, s: nat)
    requires p + s <= |oldSeq| && p + s <= |newSeq|
    requires oldSeq[..p] == newSeq[..p] && oldSeq[|oldSeq| - s..] == newSeq[|newSeq| - s..]
    ensures NewSide(Assemble(oldSeq, newSeq, p, s)) == newSeq
  {
    var mid := Middle(oldSeq, newSeq, p, s);
    var head, tail := CommonRun(oldSeq, 0, p, 0), CommonRun(oldSeq, |oldSeq| - s, s, |newSeq| - |oldSeq|);
    CommonRunHead(oldSeq, p);
    CommonRunTail(oldSeq, s, |newSeq| - |oldSeq|);
    NewOfTrimmed(head, mid, tail, oldSeq, newSeq, p, s);
  }

  /** Parts that rebuild the common prefix, the new middle and the common suffix rebuild newSeq. */
  lemma NewOfTrimmed<T>(head: seq<Entry<T>>, mid: seq<Entry<T>>, tail: seq<Entry<T>>, oldSeq: seq<T>, newSeq: seq<T>, p: nat, s: nat)
    requires p + s <= |oldSeq| && p + s <= |newSeq|
    requires oldSeq[..p] == newSeq[..p] && oldSeq[|oldSeq| - s..] == newSeq[|newSeq| - s..]
    requires NewSide(head) == oldSeq[..p] && NewSide(mid) == newSeq[p..|newSeq| - s]
    requires NewSide(tail) == oldSeq[|oldSeq| - s..]
    ensures NewSide(head + mid + tail) == newSeq
  {
    NewOfParts(head, mid, tail, newSeq, p, |newSeq| - s);
  }

  /** The assembled script numbers its entries from (0, 0). */
  lemma AssembledNumbered<T>(oldSeq: seq<T>, newSeq: seq<T>, p: nat, s: nat)
    requires p + s <= |oldSeq| && p + s <= |newSeq|
    ensures Numbered(Assemble(oldSeq, newSeq, p, s), 0, 0)
  {
    var oe, ne := |oldSeq| - s, |newSeq| - s;
    var mid := Middle(oldSeq, newSeq, p, s);
    var head, tail := CommonRun(oldSeq, 0, p, 0), CommonRun(oldSeq, oe, s, |newSeq| - |oldSeq|);
    CommonRunFacts(oldSeq, 0, p, 0);
    TailNumbered(oldSeq, oe, s, |newSeq| - |oldSeq|, ne);
    NumberedOfParts(head, mid, tail, p, oe, ne);
  }

  /** A Common run numbered from lo and n, with n written out as lo + delta. */
  lemma TailNumbered<T>(s: seq<T>, lo: nat, count: nat, delta: int, n: int)
    requires lo + count <= |s| && n == lo + delta
    ensures Numbered(CommonRun(s, lo, count, delta), lo, n)
  {
    CommonRunFacts(s, lo, count, delta);
  }

  /** The walk over the whole middles: both sides, the numbering and the Common count. */
  lemma WalkAll<T>(a: seq<T>, b: seq<T>, p: int)
    ensures OldSide(Walk(a, b, Grid(a, b), p, 0, 0)) == a && NewSide(Walk(a, b, Grid(a, b), p, 0, 0)) == b
    ensures Numbered(Walk(a, b, Grid(a, b), p, 0, 0), p, p)
    ensures CommonCount(Walk(a, b, Grid(a, b), p, 0, 0)) == LcsLen(a, b)
  {
    WalkSides(a, b, Grid(a, b), p, 0, 0);
    WalkNumbered(a, b, Grid(a, b), p, 0, 0);
    WalkCount(a, b, Grid(a, b), p, 0, 0);
    assert a[0..] == a && b[0..] == b;
  }

  /** Three numbered parts, each starting where the one before stops, are numbered from (0, 0). */
  lemma NumberedOfParts<T>(head: seq<Entry<T>>, mid: seq<Entry<T>>, tail: seq<Entry<T>>, p: nat, oe: int, ne: int)
    requires Numbered(head, 0, 0) && |OldSide(head)| == p && |NewSide(head)| == p
    requires Numbered(mid, p, p) && |OldSide(mid)| == oe - p && |NewSide(mid)| == ne - p
    requires Numbered(tail, oe, ne)
    ensures Numbered(head + mid + tail, 0, 0)
  {
    NumberedAppend(head, mid, 0, 0);
    OldSideAppend(head, mid);
    NewSideAppend(head, mid);
    assert |OldSide(head + mid)| == oe && |NewSide(head + mid)| == ne;
    NumberedAppend(head + mid, tail, 0, 0);
  }

  /** A common prefix of length p counts in full: LcsLen(x, y) == p + LcsLen(x[p..], y[p..]). */
  lemma LcsDropPrefix<T>(x: seq<T>, y: seq<T>, p: nat)
    requires p <= |x| && p <= |y| && x[..p] == y[..p]
    ensures LcsLen(x, y) == p + LcsLen(x[p..], y[p..])
  {
    assert x == x[..p] + x[p..] && y == x[..p] + y[p..];
    LcsPrefix(x[..p], x[p..], y[p..]);
  }

  /** A common suffix of length s counts in full: LcsLen(x, y) == LcsLen(x[..|x| - s], y[..|y| - s]) + s. */
  lemma LcsDropSuffix<T>(x: seq<T>, y: seq<T>, s: nat)
    requires s <= |x| && s <= |y| && x[|x| - s..] == y[|y| - s..]
    ensures LcsLen(x, y) == LcsLen(x[..|x| - s], y[..|y| - s]) + s
  {
    assert x == x[..|x| - s] + x[|x| - s..] && y == y[..|y| - s] + x[|x| - s..];
    LcsSuffix(x[..|x| - s], y[..|y| - s], x[|x| - s..]);
  }

  /** LcsLen of the inputs is the prefix, the LCS of the middles and the suffix. */
  lemma LcsTrimmed<T>(oldSeq: seq<T>, newSeq: seq<T>, p: nat, s: nat)
    requires p + s <= |oldSeq| && p + s <= |newSeq|
    requires oldSeq[..p] == newSeq[..p] && oldSeq[|oldSeq| - s..] == newSeq[|newSeq| - s..]
    ensures LcsLen(oldSeq, newSeq) == p + LcsLen(oldSeq[p..|oldSeq| - s], newSeq[p..|newSeq| - s]) + s
  {
    LcsDropPrefix(oldSeq, newSeq, p);
    var x, y := oldSeq[p..], newSeq[p..];
    assert x[|x| - s..] == oldSeq[|oldSeq| - s..] && y[|y| - s..] == newSeq[|newSeq| - s..];
    LcsDropSuffix(x, y, s);
    assert x[..|x| - s] == oldSeq[p..|oldSeq| - s] && y[..|y| - s] == newSeq[p..|newSeq| - s];
  }

  /** The assembled script keeps |prefix| + LcsLen(middles) + |suffix| Common entries. */
  lemma AssembledCount<T>(oldSeq: seq<T>, newSeq: seq<T>, p: nat, s: nat)
    requires p + s <= |oldSeq| && p + s <= |newSeq|
    ensures CommonCount(Assemble(oldSeq, newSeq, p, s)) == p + LcsLen(oldSeq[p..|oldSeq| - s], newSeq[p..|newSeq| - s]) + s
  {
    var mid := Middle(oldSeq, newSeq, p, s);
    var head, tail := CommonRun(oldSeq, 0, p, 0), CommonRun(oldSeq, |oldSeq| - s, s, |newSeq| - |oldSeq|);
    CommonRunHead(oldSeq, p);
    CommonRunTail(oldSeq, s, |newSeq| - |oldSeq|);
    Concat3(head, mid, tail);
  }

  /** The script rebuilds both inputs: its old side is oldSeq and its new side is newSeq. */
  lemma LcsDiffRebuilds<T>(oldSeq: seq<T>, newSeq: seq<T>)
    ensures OldSide(LcsDiffSpec(oldSeq, newSeq)) == oldSeq
    ensures NewSide(LcsDiffSpec(oldSeq, newSeq)) == newSeq
  {
    if |oldSeq| == 0 {
      AddedRunFacts(newSeq, 0, 0, 0);
      assert newSeq[0..] == newSeq;
    } else if |newSeq| == 0 {
      RemovedRunFacts(oldSeq, 0, 0, 0);
      assert oldSeq[0..] == oldSeq;
    } else {
      var p := PrefixFrom(oldSeq, newSeq, 0);
      var s := SuffixFrom(oldSeq, newSeq, p, 0);
      Scans(oldSeq, newSeq, p, s);
      AssembledOldSide(oldSeq, newSeq, p, s);
      AssembledNewSide(oldSeq, newSeq, p, s);
    }
  }

  /** Every entry carries its position: old indices count 0, 1, ... over the old side, new indices over the new side. */
  lemma LcsDiffNumbered<T>(oldSeq: seq<T>, newSeq: seq<T>)
    ensures Numbered(LcsDiffSpec(oldSeq, newSeq), 0, 0)
  {
    if |oldSeq| == 0 {
      AddedRunFacts(newSeq, 0, 0, 0);
    } else if |newSeq| == 0 {
      RemovedRunFacts(oldSeq, 0, 0, 0);
    } else {
      var p := PrefixFrom(oldSeq, newSeq, 0);
      var s := SuffixFrom(oldSeq, newSeq, p, 0);
      Scans(oldSeq, newSeq, p, s);
      AssembledNumbered(oldSeq, newSeq, p, s);
    }
  }

  /**
   * The script keeps a longest common subsequence: LcsLen(oldSeq, newSeq)
   * Common entries, and no script that rebuilds both inputs keeps more.
   */
  lemma LcsDiffOptimal<T>(oldSeq: seq<T>, newSeq: seq<T>)
    ensures CommonCount(LcsDiffSpec(oldSeq, newSeq)) == LcsLen(oldSeq, newSeq)
    ensures forall r :: OldSide(r) == oldSeq && NewSide(r) == newSeq ==> CommonCount(r) <= CommonCount(LcsDiffSpec(oldSeq, newSeq))
  {
    forall r | OldSide(r) == oldSeq && NewSide(r) == newSeq
      ensures CommonCount(r) <= LcsLen(oldSeq, newSeq)
    {
      LcsIsLongest(r, oldSeq, newSeq);
    }
    if |oldSeq| == 0 {
      AddedRunFacts(newSeq, 0, 0, 0);
    } else if |newSeq| == 0 {
      RemovedRunFacts(oldSeq, 0, 0, 0);
    } else {
      var p := PrefixFrom(oldSeq, newSeq, 0);
      var s := SuffixFrom(oldSeq, newSeq, p, 0);
      Scans(oldSeq, newSeq, p, s);
      AssembledCount(oldSeq, newSeq, p, s);
      LcsTrimmed(oldSeq, newSeq, p, s);
    }
  }

  /** The common prefix of a sequence with itself is all of it. */
  lemma {:induction false} PrefixOfSelf<T>(s: seq<T>, k: nat)
    requires k <= |s|
    ensures PrefixFrom(s, s, k) == |s|
    decreases |s| - k
  {
    if k < |s| {
      PrefixOfSelf(s, k + 1);
    }
  }

  /** Diffing a sequence against itself gives one Common entry per element and nothing else. */
  lemma LcsDiffIdentical<T>(s: seq<T>)
    ensures LcsDiffSpec(s, s) == CommonRun(s, 0, |s|, 0)
  {
    if s != [] {
      PrefixOfSelf(s, 0);
      var a := s[|s|..|s|];
      assert a == [];
      assert Walk(a, a, Grid(a, a), |s|, 0, 0) == [];
      assert CommonRun(s, |s|, 0, 0) == [];
    }
  }

  /** Over middles with no element in common every entry of the table is 0. */
  lemma GridDisjoint<T>(a: seq<T>, b: seq<T>)
    requires forall x, y :: 0 <= x < |a| && 0 <= y < |b| ==> a[x] != b[y]
    ensures forall r, c :: 0 <= r <= |b| && 0 <= c <= |a| ==> Cell(Grid(a, b), r, c) == 0
  {
    forall r, c | 0 <= r <= |b| && 0 <= c <= |a|
      ensures LcsLen(b[r..], a[c..]) == 0
    {
      LcsDisjoint(b[r..], a[c..]);
    }
  }

  /** Over a table of zeros, the walk takes every Added step before any Removed step. */
  lemma {:induction false} WalkDisjoint<T>(a: seq<T>, b: seq<T>, g: seq<seq<int>>, p: int, i: nat, j: nat)
    requires i <= |a| && j <= |b|
    requires forall x, y :: 0 <= x < |a| && 0 <= y < |b| ==> a[x] != b[y]
    requires forall r, c :: 0 <= r <= |b| && 0 <= c <= |a| ==> Cell(g, r, c) == 0
    ensures Walk(a, b, g, p, i, j) == AddedRun(b, p, j) + RemovedRun(a, p, i)
    decreases |b| - j
  {
    if i < |a| && j < |b| {
      assert a[i] != b[j] && Cell(g, j + 1, i) == 0 && Cell(g, j, i + 1) == 0;
      var e := Added(None, Some(p + j), b[j]);
      assert Walk(a, b, g, p, i, j) == [e] + Walk(a, b, g, p, i, j + 1);
      WalkDisjoint(a, b, g, p, i, j + 1);
      AddedCons(b, p, j);
      AppendAssoc([e], AddedRun(b, p, j + 1), RemovedRun(a, p, i));
    } else if i == |a| {
      assert RemovedRun(a, p, i) == [];
    } else {
      assert AddedRun(b, p, j) == [];
    }
  }

  /**
   * With no element in common, the script is every element of newSeq as
   * Added, then every element of oldSeq as Removed, and has no Common entry.
   */
  lemma LcsDiffDisjoint<T>(oldSeq: seq<T>, newSeq: seq<T>)
    requires forall i, j :: 0 <= i < |oldSeq| && 0 <= j < |newSeq| ==> oldSeq[i] != newSeq[j]
    ensures LcsDiffSpec(oldSeq, newSeq) == AddedRun(newSeq, 0, 0) + RemovedRun(oldSeq, 0, 0)
    ensures CommonCount(LcsDiffSpec(oldSeq, newSeq)) == 0
  {
    if |oldSeq| == 0 {
      assert RemovedRun(oldSeq, 0, 0) == [];
    } else if |newSeq| == 0 {
      assert AddedRun(newSeq, 0, 0) == [];
    } else {
      assert PrefixFrom(oldSeq, newSeq, 0) == 0;
      assert SuffixFrom(oldSeq, newSeq, 0, 0) == 0;
      DisjointAssembled(oldSeq, newSeq);
    }
    AddedRunFacts(newSeq, 0, 0, 0);
    RemovedRunFacts(oldSeq, 0, 0, 0);
    CommonCountAppend(AddedRun(newSeq, 0, 0), RemovedRun(oldSeq, 0, 0));
  }

  /** With no element in common and nothing trimmed, the assembled script is the two runs. */
  lemma DisjointAssembled<T>(oldSeq: seq<T>, newSeq: seq<T>)
    requires forall i, j :: 0 <= i < |oldSeq| && 0 <= j < |newSeq| ==> oldSeq[i] != newSeq[j]
    ensures Assemble(oldSeq, newSeq, 0, 0) == AddedRun(newSeq, 0, 0) + RemovedRun(oldSeq, 0, 0)
  {
    assert oldSeq[0..|oldSeq|] == oldSeq && newSeq[0..|newSeq|] == newSeq;
    AssembleParts(oldSeq, newSeq, 0, 0, oldSeq, newSeq);
    GridDisjoint(oldSeq, newSeq);
    WalkDisjoint(oldSeq, newSeq, Grid(oldSeq, newSeq), 0, 0, 0);
    assert CommonRun(oldSeq, 0, 0, 0) == [] && CommonRun(oldSeq, |oldSeq|, 0, |newSeq| - |oldSeq|) == [];
  }

  /**
   * Old [1, 2, 3] against new [2, 3, 4]: Removed 1, Common 2, Common 3,
   * Added 4, the script diff_test.go expects.
   */
  lemma ShiftedExample()
    ensures LcsDiffSpec([1, 2, 3], [2, 3, 4])
            == [Removed(Some(0), None, 1), Common(Some(1), Some(0), 2), Common(Some(2), Some(1), 3), Added(None, Some(2), 4)]
  {
    var o, n := [1, 2, 3], [2, 3, 4];
    assert PrefixFrom(o, n, 0) == 0;
    assert SuffixFrom(o, n, 0, 0) == 0;
    assert o[0..3] == o && n[0..3] == n;
    AssembleParts(o, n, 0, 0, o, n);
    ShiftedWalk();
    assert CommonRun(o, 0, 0, 0) == [] && CommonRun(o, 3, 0, 0) == [];
  }

  /** The two table entries the first step of the example reads. */
  lemma ShiftedCells()
    ensures Cell(Grid([1, 2, 3], [2, 3, 4]), 1, 0) == 1 && Cell(Grid([1, 2, 3], [2, 3, 4]), 0, 1) == 2
  {
    var o, n := [1, 2, 3], [2, 3, 4];
    assert n[1..] == [3, 4] && o[1..] == [2, 3] && o[0..] == o && n[0..] == n;
    assert LcsLen([3, 4], [1, 2, 3]) == 1;
    assert LcsLen([2, 3, 4], [2, 3]) == 2;
  }

  /** The walk of the example: one Removed step, two Common steps, then the Added tail. */
  lemma ShiftedWalk()
    ensures Walk([1, 2, 3], [2, 3, 4], Grid([1, 2, 3], [2, 3, 4]), 0, 0, 0)
            == [Removed(Some(0), None, 1), Common(Some(1), Some(0), 2), Common(Some(2), Some(1), 3), Added(None, Some(2), 4)]
  {
    var o, n := [1, 2, 3], [2, 3, 4];
    var g := Grid(o, n);
    ShiftedCells();
    assert Walk(o, n, g, 0, 3, 2) == [Added(None, Some(2), 4)];
    assert Walk(o, n, g, 0, 1, 0) == [Common(Some(1), Some(0), 2), Common(Some(2), Some(1), 3), Added(None, Some(2), 4)];
  }

  // ---------------------------------------------------------------------
  // The suffix scan as lcs.go writes it
  // ---------------------------------------------------------------------

  /**
   * The suffix loop of lcs.go: its guard re-tests the prefix indices, which
   * the loop never changes, so it is stopped only by a mismatch; once the
   * count reaches the length of either side the next comparison reads index
   * -1, which panics.
   */
  function SuffixScanAsWritten<T(==)>(a: seq<T>, b: seq<T>, p: nat, s: nat): (r: Outcome<nat>)
    ensures r.Ok? ==> r.value >= s
    decreases |a| - s
  {
    if !(p < |a| && p < |b|) then Ok(s)
    else if s >= |a| || s >= |b| then Panic("index out of range")
    else if a[|a| - 1 - s] == b[|b| - 1 - s] then SuffixScanAsWritten(a, b, p, s + 1)
    else Ok(s)
  }

  /**
   * LcsDiff as lcs.go writes it: the unbounded suffix scan, then the slices
   * oldSeq[prefixLen:oldLen-suffixLen] and newSeq[prefixLen:newLen-suffixLen],
   * which panic when the suffix overlaps the prefix; otherwise the same script.
   */
  function LcsDiffAsWritten<T(==)>(oldSeq: seq<T>, newSeq: seq<T>): Outcome<seq<Entry<T>>>
  {
    if |oldSeq| == 0 then Ok(AddedRun(newSeq, 0, 0))
    else if |newSeq| == 0 then Ok(RemovedRun(oldSeq, 0, 0))
    else
      var p := PrefixFrom(oldSeq, newSeq, 0);
      match SuffixScanAsWritten(oldSeq, newSeq, p, 0)
      case Panic(message) => Panic(message)
      case Ok(s) =>
        if p + s > |oldSeq| || p + s > |newSeq| then Panic("slice bounds out of range")
        else Ok(Assemble(oldSeq, newSeq, p, s))
  }

  /** Where the unbounded scan stops inside both sides, it stops where the bounded one does. */
  lemma {:induction false} SuffixScanAgrees<T>(a: seq<T>, b: seq<T>, p: nat, s: nat)
    requires p + s <= |a| && p + s <= |b|
    requires SuffixScanAsWritten(a, b, p, s).Ok?
    requires p + SuffixScanAsWritten(a, b, p, s).value <= |a| && p + SuffixScanAsWritten(a, b, p, s).value <= |b|
    ensures SuffixScanAsWritten(a, b, p, s).value == SuffixFrom(a, b, p, s)
    decreases |a| - s
  {
    if p < |a| && p < |b| && s < |a| && s < |b| && a[|a| - 1 - s] == b[|b| - 1 - s] {
      if p + s < |a| && p + s < |b| {
        SuffixScanAgrees(a, b, p, s + 1);
      } else {
        assert false;
      }
    }
  }

  /** Whenever lcs.go does not panic, it returns the script LcsDiff returns. */
  lemma AsWrittenAgrees<T>(oldSeq: seq<T>, newSeq: seq<T>)
    requires LcsDiffAsWritten(oldSeq, newSeq).Ok?
    ensures LcsDiffAsWritten(oldSeq, newSeq).value == LcsDiffSpec(oldSeq, newSeq)
  {
    if |oldSeq| > 0 && |newSeq| > 0 {
      var p := PrefixFrom(oldSeq, newSeq, 0);
      SuffixScanAgrees(oldSeq, newSeq, p, 0);
    }
  }

  /**
   * lcs.go panics on old [1] and new [2, 1]: the suffix scan matches the 1s,
   * then reads oldSeq[-1]. LcsDiff returns Added 2, then Common 1.
   */
  lemma SuffixScanPanics()
    ensures LcsDiffAsWritten([1], [2, 1]).Panic?
    ensures LcsDiffSpec([1], [2, 1]) == [Added(None, Some(0), 2), Common(Some(0), Some(1), 1)]
  {
    var o, n := [1], [2, 1];
    assert PrefixFrom(o, n, 0) == 0;
    assert SuffixScanAsWritten(o, n, 0, 1).Panic?;
    assert SuffixFrom(o, n, 0, 0) == 1;
    var a, b := o[0..0], n[0..1];
    assert a == [] && b == [2];
    assert Walk(a, b, Grid(a, b), 0, 0, 0) == [Added(None, Some(0), 2)];
    assert CommonRun(o, 0, 0, 0) == [] && CommonRun(o, 0, 1, 1) == [Common(Some(0), Some(1), 1)];
  }
}
