/**
 * The Bloom filter of bloomfilter/src/lib.rs.
 *
 * A filter holds `m` and `k`, both clamped to at least 1, and a bitset
 * created with the raw `m` it was given. Each datum is hashed twice with
 * 128-bit murmur3 (once as is, once with a trailing byte 1); the four 64-bit
 * halves give `k` locations by double hashing. murmur3 itself is not part of
 * this model: it is the parameter `murmur`, any function from byte strings to
 * 128-bit values. The bitset is a `seq<bool>`.
 */
module Bloom {
  import opened Wrappers

  type Byte = b: int | 0 <= b < 256

  const U64: nat := 0x1_0000_0000_0000_0000
  const U128: nat := 0x1_0000_0000_0000_0000_0000_0000_0000_0000

  type Hash128 = h: int | 0 <= h < U128
  type Murmur = seq<Byte> -> Hash128

  /** split_u128: the high and the low 64 bits of a 128-bit value. */
  function SplitU128(value: Hash128): (r: (nat, nat))
    ensures r.0 < U64 && r.1 < U64
    ensures r.0 * U64 + r.1 == value
  {
    (value / U64, value % U64)
  }

  /** compute_hash: [low, high] of murmur3(data), then of murmur3(data ++ [1]). */
  function ComputeHash(data: seq<Byte>, murmur: Murmur): (h: seq<nat>)
    ensures |h| == 4 && forall i :: 0 <= i < 4 ==> h[i] < U64
    ensures h[1] * U64 + h[0] == murmur(data) && h[3] * U64 + h[2] == murmur(data + [1])
  {
    var (high1, low1) := SplitU128(murmur(data));
    var (high2, low2) := SplitU128(murmur(data + [1]));
    [low1, high1, low2, high2]
  }

  /** The second hash get_location multiplies by: h[2] or h[3], alternating in pairs of i. */
  function MixIndex(i: nat): (r: nat)
    ensures r == 2 || r == 3
    ensures r == (if i % 4 == 1 || i % 4 == 2 then 3 else 2)
  {
    2 + ((i + i % 2) % 4) / 2
  }

  /** get_location: h[i mod 2] + i * h[MixIndex(i)] with 64-bit wrap-around, reduced mod m. */
  function GetLocation(m: nat, h: seq<nat>, i: nat): (loc: nat)
    requires m >= 1 && |h| == 4 && i < U64
    ensures loc < m
  {
    var product := (i * h[MixIndex(i)]) % U64;
    var result := (h[i % 2] + product) % U64;
    result % m
  }

  /** The locations for hashes `h`, in the order the loops of insert and contains visit them. */
  function Locations(m: nat, k: nat, h: seq<nat>): (locs: seq<nat>)
    requires m >= 1 && |h| == 4 && k <= U64
    ensures |locs| == k && forall i :: 0 <= i < k ==> locs[i] == GetLocation(m, h, i) && locs[i] < m
  {
    seq(k, i requires 0 <= i < k => GetLocation(m, h, i))
  }

  /** The bitset after FixedBitSet::insert at each of `locs` in turn (an index out of range is left alone). */
  function SetBits(bits: seq<bool>, locs: seq<nat>): seq<bool>
  {
    if locs == [] then bits
    else
      var before := SetBits(bits, locs[..|locs| - 1]);
      var l := locs[|locs| - 1];
      if l < |before| then before[l := true] else before
  }

  /** Setting bits keeps the length, sets exactly the bits at `locs` and keeps every bit already set. */
  lemma {:induction false} SetBitsMeaning(bits: seq<bool>, locs: seq<nat>)
    ensures |SetBits(bits, locs)| == |bits|
    ensures forall j :: 0 <= j < |bits| ==> SetBits(bits, locs)[j] == (bits[j] || j in locs)
  {
    if locs != [] {
      var init := locs[..|locs| - 1];
      SetBitsMeaning(bits, init);
      assert locs == init + [locs[|locs| - 1]];
    }
  }

  /** Every location is a set bit (FixedBitSet::contains is false past the end). */
  predicate AllSet(bits: seq<bool>, locs: seq<nat>)
  {
    forall i :: 0 <= i < |locs| ==> locs[i] < |bits| && bits[locs[i]]
  }

  /** union_with: the bitset grows to the longer length and a bit is set when it is set in either. */
  function UnionBits(a: seq<bool>, b: seq<bool>): (r: seq<bool>)
    ensures |r| == if |a| < |b| then |b| else |a|
    ensures forall j :: 0 <= j < |r| ==> r[j] == ((j < |a| && a[j]) || (j < |b| && b[j]))
  {
    seq(if |a| < |b| then |b| else |a|, j => (0 <= j < |a| && a[j]) || (0 <= j < |b| && b[j]))
  }

  /** No false negatives: once the locations are set they are all found. */
  lemma InsertedIsContained(bits: seq<bool>, locs: seq<nat>)
    requires forall i :: 0 <= i < |locs| ==> locs[i] < |bits|
    ensures AllSet(SetBits(bits, locs), locs)
  {
    SetBitsMeaning(bits, locs);
  }

  /** Further insertions never clear a bit, so a datum stays contained until clear. */
  lemma ContainedStaysContained(bits: seq<bool>, locs: seq<nat>, more: seq<nat>)
    requires AllSet(bits, locs)
    ensures AllSet(SetBits(bits, more), locs)
  {
    SetBitsMeaning(bits, more);
  }

  /** After clear no datum is contained, since every datum has at least one location. */
  lemma ClearedContainsNothing(n: nat, locs: seq<nat>)
    requires |locs| >= 1
    ensures !AllSet(seq(n, _ => false), locs)
  {
    if locs[0] < n {
      assert !seq(n, _ => false)[locs[0]];
    }
  }

  /**
   * Union of two filters of equal size, each with its own data inserted, is
   * the union of their old bitsets with both data inserted.
   */
  lemma UnionIsInsertBoth(a: seq<bool>, b: seq<bool>, locsA: seq<nat>, locsB: seq<nat>)
    requires |a| == |b|
    ensures UnionBits(SetBits(a, locsA), SetBits(b, locsB)) == SetBits(SetBits(UnionBits(a, b), locsA), locsB)
  {
    var u := UnionBits(a, b);
    SetBitsMeaning(a, locsA);
    SetBitsMeaning(b, locsB);
    SetBitsMeaning(u, locsA);
    SetBitsMeaning(SetBits(u, locsA), locsB);
  }

  class BloomFilter {
    var m: nat
    var k: nat
    var bits: seq<bool>

    /** m and k are clamped to at least 1 and are usize values. */
    ghost predicate Valid()
      reads this
    {
      1 <= m < U64 && 1 <= k < U64
    }

    /** new: m and k clamped to at least 1, and a cleared bitset of the raw length m. */
    constructor(m0: nat, k0: nat)
      requires m0 < U64 && k0 < U64
      ensures Valid()
      ensures m == (if m0 < 1 then 1 else m0) && k == (if k0 < 1 then 1 else k0)
      ensures bits == seq(m0, _ => false)
    {
      m := if m0 < 1 then 1 else m0;
      k := if k0 < 1 then 1 else k0;
      bits := seq(m0, _ => false);
    }

    /** capacity(): the clamped m. */
    function Capacity(): (r: nat)
      reads this
      requires Valid()
      ensures r >= 1 && r == m
    {
      m
    }

    /** k(): the clamped number of hash functions. */
    function K(): (r: nat)
      reads this
      requires Valid()
      ensures r >= 1 && r == k
    {
      k
    }

    /** The locations of `data` in this filter. */
    function LocationsOf(data: seq<Byte>, murmur: Murmur): (locs: seq<nat>)
      reads this
      requires Valid()
      ensures |locs| == k && forall i :: 0 <= i < |locs| ==> locs[i] < m
    {
      Locations(m, k, ComputeHash(data, murmur))
    }

    /**
     * insert: set the k locations of `data`. FixedBitSet::insert panics past
     * the end of the bitset, so the bitset must have the clamped length m,
     * which a filter made with m = 0 does not.
     */
    method Insert(data: seq<Byte>, murmur: Murmur)
      requires Valid() && |bits| == m
      modifies this
      ensures Valid() && m == old(m) && k == old(k)
      ensures bits == SetBits(old(bits), LocationsOf(data, murmur))
    {
      var h := ComputeHash(data, murmur);
      ghost var locs := Locations(m, k, h);
      ghost var start := bits;
      for i := 0 to k
        invariant Valid() && m == old(m) && k == old(k)
        invariant |bits| == m
        invariant bits == SetBits(start, locs[..i])
      {
        var loc := GetLocation(m, h, i);
        SetBitsMeaning(start, locs[..i]);
        assert locs[..i + 1][..i] == locs[..i];
        bits := bits[loc := true];
      }
      assert locs[..k] == locs;
    }

    /** contains: true iff every location of `data` is a set bit. */
    method Contains(data: seq<Byte>, murmur: Murmur) returns (found: bool)
      requires Valid()
      ensures found == AllSet(bits, LocationsOf(data, murmur))
    {
      var h := ComputeHash(data, murmur);
      ghost var locs := Locations(m, k, h);
      for i := 0 to k
        invariant Valid()
        invariant AllSet(bits, locs[..i])
      {
        var loc := GetLocation(m, h, i);
        if !(loc < |bits| && bits[loc]) {
          return false;
        }
        assert locs[..i + 1] == locs[..i] + [loc];
      }
      assert locs[..k] == locs;
      return true;
    }

    /** clear: every bit off, the length kept. */
    method Clear()
      requires Valid()
      modifies this
      ensures Valid() && m == old(m) && k == old(k)
      ensures bits == seq(|old(bits)|, _ => false)
    {
      bits := seq(|bits|, _ => false);
    }

    /** union: an error, and no change, when m or k differ; otherwise the bitwise or. */
    method Union(other: BloomFilter) returns (ok: bool)
      requires Valid() && other.Valid()
      modifies this
      ensures m == old(m) && k == old(k) && Valid()
      ensures ok <==> old(m) == other.m && old(k) == other.k
      ensures ok ==> bits == UnionBits(old(bits), old(other.bits))
      ensures !ok ==> bits == old(bits)
    {
      if m != other.m {
        return false;
      }
      if k != other.k {
        return false;
      }
      bits := UnionBits(bits, other.bits);
      return true;
    }
  }
}
