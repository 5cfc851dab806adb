/**
 * The entries a sequence diff produces (diff/diff.go, diff/utils.go).
 *
 * Go's three result structs Common, Added and Removed become the three
 * constructors of `Entry`; each carries an optional old index, an optional
 * new index and the datum. An `*int` is an `Option<int>`: a nil pointer is
 * `None`, and the fresh pointer cloneAndGetPtr returns for `v` is `Some(v)`
 * (pointer identity is never observed, since compareIntPtrs compares targets).
 */
module DiffResult {
  import opened Wrappers

  datatype Entry<T> =
    | Common(oldIndex: Option<int>, newIndex: Option<int>, data: T)
    | Added(oldIndex: Option<int>, newIndex: Option<int>, data: T)
    | Removed(oldIndex: Option<int>, newIndex: Option<int>, data: T)

  /** What a call that may panic returns: its value, or the panic message. */
  datatype Outcome<T> = Ok(value: T) | Panic(message: string)

  /** Type(): the name of the variant. */
  function TypeName<T>(e: Entry<T>): (name: string)
    ensures name == "common" <==> e.Common?
    ensures name == "added" <==> e.Added?
    ensures name == "removed" <==> e.Removed?
  {
    match e
    case Common(_, _, _) => "common"
    case Added(_, _, _) => "added"
    case Removed(_, _, _) => "removed"
  }

  /** compareIntPtrs: both nil, or both non-nil with equal targets. */
  function ComparePtrs(a: Option<int>, b: Option<int>): bool
  {
    if a.None? && b.None? then true
    else if a.None? || b.None? then false
    else a.value == b.value
  }

  /** compareIntPtrs is exactly equality of optional ints, so it is an equivalence. */
  lemma ComparePtrsIsEquality(a: Option<int>, b: Option<int>)
    ensures ComparePtrs(a, b) <==> a == b
    ensures a.None? && b.None? ==> ComparePtrs(a, b)
    ensures a.None? != b.None? ==> !ComparePtrs(a, b)
  {
  }

  /** Equal: same variant name, both indices equal through compareIntPtrs, and equal data. */
  function Equal<T(==)>(self: Entry<T>, other: Entry<T>): bool
  {
    && TypeName(self) == TypeName(other)
    && ComparePtrs(self.oldIndex, other.oldIndex)
    && ComparePtrs(self.newIndex, other.newIndex)
    && self.data == other.data
  }

  /** Equal holds exactly for identical entries; hence it is reflexive, symmetric and transitive. */
  lemma EqualIsEquality<T>(a: Entry<T>, b: Entry<T>)
    ensures Equal(a, b) <==> a == b
    ensures Equal(a, a) && (Equal(a, b) ==> Equal(b, a))
  {
    ComparePtrsIsEquality(a.oldIndex, b.oldIndex);
    ComparePtrsIsEquality(a.newIndex, b.newIndex);
  }

  /** The DiffAlgorithm constants. */
  const LCS: int := 0
  const MYERS: int := 1

  /** DiffAlgorithm.String. */
  function AlgorithmName(algorithm: int): (name: string)
    ensures name == "lcs" <==> algorithm == LCS
    ensures name == "myers" <==> algorithm == MYERS
    ensures name == "unknown" <==> algorithm != LCS && algorithm != MYERS
  {
    if algorithm == LCS then "lcs" else if algorithm == MYERS then "myers" else "unknown"
  }

  /** The data of the Common and Removed entries, in order: the old sequence the diff describes. */
  function OldSide<T>(r: seq<Entry<T>>): seq<T>
  {
    if |r| == 0 then []
    else (if r[0].Added? then [] else [r[0].data]) + OldSide(r[1..])
  }

  /** The data of the Common and Added entries, in order: the new sequence the diff describes. */
  function NewSide<T>(r: seq<Entry<T>>): seq<T>
  {
    if |r| == 0 then []
    else (if r[0].Removed? then [] else [r[0].data]) + NewSide(r[1..])
  }

  /** The number of Common entries. */
  function CommonCount<T>(r: seq<Entry<T>>): nat
  {
    if |r| == 0 then 0 else (if r[0].Common? then 1 else 0) + CommonCount(r[1..])
  }

  /**
   * Every old-side entry carries the next old index, starting at `o`, and
   * every new-side entry the next new index, starting at `n`; an Added entry
   * has no old index and a Removed entry no new index.
   */
  predicate Numbered<T>(r: seq<Entry<T>>, o: int, n: int)
  {
    |r| == 0 ||
    match r[0]
    case Common(oi, ni, _) => oi == Some(o) && ni == Some(n) && Numbered(r[1..], o + 1, n + 1)
    case Added(oi, ni, _) => oi.None? && ni == Some(n) && Numbered(r[1..], o, n + 1)
    case Removed(oi, ni, _) => oi == Some(o) && ni.None? && Numbered(r[1..], o + 1, n)
  }

  /** The old side distributes over concatenation. */
  lemma {:induction false} OldSideAppend<T>(r: seq<Entry<T>>, t: seq<Entry<T>>)
    ensures OldSide(r + t) == OldSide(r) + OldSide(t)
  {
    if r == [] {
      assert r + t == t;
    } else {
      assert (r + t)[0] == r[0] && (r + t)[1..] == r[1..] + t;
      OldSideAppend(r[1..], t);
      var h := if r[0].Added? then [] else [r[0].data];
      assert OldSide(r + t) == h + (OldSide(r[1..]) + OldSide(t));
    }
  }

  /** The new side distributes over concatenation. */
  lemma {:induction false} NewSideAppend<T>(r: seq<Entry<T>>, t: seq<Entry<T>>)
    ensures NewSide(r + t) == NewSide(r) + NewSide(t)
  {
    if r == [] {
      assert r + t == t;
    } else {
      assert (r + t)[0] == r[0] && (r + t)[1..] == r[1..] + t;
      NewSideAppend(r[1..], t);
      var h := if r[0].Removed? then [] else [r[0].data];
      assert NewSide(r + t) == h + (NewSide(r[1..]) + NewSide(t));
    }
  }

  /** The Common count adds up over concatenation. */
  lemma {:induction false} CommonCountAppend<T>(r: seq<Entry<T>>, t: seq<Entry<T>>)
    ensures CommonCount(r + t) == CommonCount(r) + CommonCount(t)
  {
    if r == [] {
      assert r + t == t;
    } else {
      assert (r + t)[0] == r[0] && (r + t)[1..] == r[1..] + t;
      CommonCountAppend(r[1..], t);
    }
  }

  /** Numbering of a concatenation: the second part continues where the first stops. */
  lemma {:induction false} NumberedAppend<T>(r: seq<Entry<T>>, t: seq<Entry<T>>, o: int, n: int)
    requires Numbered(r, o, n) && Numbered(t, o + |OldSide(r)|, n + |NewSide(r)|)
    ensures Numbered(r + t, o, n)
  {
    if r == [] {
      assert r + t == t;
    } else {
      assert (r + t)[0] == r[0] && (r + t)[1..] == r[1..] + t;
      NumberedAppend(r[1..], t, if r[0].Added? then o else o + 1, if r[0].Removed? then n else n + 1);
    }
  }
}
