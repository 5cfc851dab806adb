/**
 * The bucket array of the open-addressing hash map in hashmap/src/hashmap.c,
 * and what its operations do to it, as functions of the buckets.
 *
 * A bucket's key pointer is NULL, the TOMBSTONE marker, or a key of keylen
 * bytes; its val is a pointer, NULL or not (`Option`). A map without
 * buckets is the empty sequence. Slots are probed from the FNV-1 hash of
 * the key, `(hash + i) % capacity` in uint64_t arithmetic.
 *
 * `Contents` is what the buckets mean: the map from each stored key to its
 * value. The properties of the operations are lemmas relating them to
 * `Contents`, under `TableInv`, the invariant the operations keep.
 */
module HashTable {
  import opened Wrappers

  /** INIT_SIZE, HIGH_WATERMARK and LOW_WATERMARK. */
  const INIT_SIZE: nat := 16
  const HIGH_WATERMARK: nat := 70
  const LOW_WATERMARK: nat := 50
  /** The largest C int. */
  const INT_MAX: nat := 0x7FFF_FFFF
  /** 2^64: uint64_t arithmetic is modulo this. */
  const U64: nat := 0x1_0000_0000_0000_0000
  /** The 64-bit FNV offset basis and FNV prime. */
  const FNV_OFFSET_BASIS: bv64 := 0xcbf2_9ce4_8422_2325
  const FNV_PRIME: bv64 := 0x100_0000_01b3

  /** A bucket's key pointer: NULL, TOMBSTONE, or a key and its keylen bytes. */
  datatype Key = Null | Tombstone | Bytes(s: seq<bv8>)

  /** HashEntry. */
  datatype HashEntry<V> = HashEntry(key: Key, val: Option<V>)

  // ---------------------------------------------------------------------
  // The hash

  /** One turn of fnv_hash's loop: multiply by the prime modulo 2^64, then xor in the byte. */
  function FnvRound(hash: bv64, b: bv8): bv64
  {
    (hash * FNV_PRIME) ^ (b as bv64)
  }

  /** fnv_hash: FNV-1 over the bytes, from the offset basis. */
  function Fnv(s: seq<bv8>): bv64
  {
    if s == [] then FNV_OFFSET_BASIS else FnvRound(Fnv(s[..|s| - 1]), s[|s| - 1])
  }

  /** The hash of one more byte. */
  lemma FnvStep(s: seq<bv8>, i: nat)
    requires i < |s|
    ensures Fnv(s[..i + 1]) == FnvRound(Fnv(s[..i]), s[i])
  {
    assert s[..i + 1][..i] == s[..i];
  }

  /** The FNV-1 64-bit test vectors for "a" and "foobar". */
  lemma FnvTestVectors()
    ensures Fnv([0x61]) == 0xaf63_bd4c_8601_b7be
    ensures Fnv([0x66, 0x6f, 0x6f, 0x62, 0x61, 0x72]) == 0x340d_8765_a4dd_a9c2
  {
    var s: seq<bv8> := [0x66, 0x6f, 0x6f, 0x62, 0x61, 0x72];
    assert Fnv(s[..1]) == 0xaf63_bd4c_8601_b7b9;
    assert s[..2][..1] == s[..1];
    assert Fnv(s[..2]) == 0x0832_6207_b4eb_2f34;
    assert s[..3][..2] == s[..2];
    assert Fnv(s[..3]) == 0xd8cb_c718_6ba1_3533;
    assert s[..4][..3] == s[..3];
    assert Fnv(s[..4]) == 0x0378_817e_e2ed_65cb;
    assert s[..5][..4] == s[..4];
    assert Fnv(s[..5]) == 0xd329_d59b_9963_f790;
    assert s[..5] == s[..5] && s == s[..6] && s[..6][..5] == s[..5];
  }

  // ---------------------------------------------------------------------
  // Arithmetic

  function Pow2(n: nat): (r: nat)
    ensures r > 0
  {
    if n == 0 then 1 else 2 * Pow2(n - 1)
  }

  lemma {:induction false} Pow2Add(a: nat, b: nat)
    ensures Pow2(a + b) == Pow2(a) * Pow2(b)
  {
    if a > 0 {
      Pow2Add(a - 1, b);
    }
  }

  lemma {:induction false} Pow2Monotone(a: nat, b: nat)
    requires a <= b
    ensures Pow2(a) <= Pow2(b)
    decreases b - a
  {
    if a < b {
      Pow2Monotone(a + 1, b);
    }
  }

  lemma Pow2Of32()
    ensures Pow2(32) == 0x1_0000_0000
  {
    assert Pow2(8) == 0x100;
    Pow2Add(8, 8);
    Pow2Add(16, 16);
  }

  lemma Pow2Of64()
    ensures Pow2(64) == U64
  {
    Pow2Of32();
    Pow2Add(32, 32);
  }

  /** A power of two up to 2^64 divides 2^64, so uint64_t wrap-around keeps the remainder. */
  lemma Pow2Divides(n: nat)
    requires n <= 64
    ensures U64 % Pow2(n) == 0
  {
    Pow2Of64();
    Pow2Add(64 - n, n);
    ModMultiple(0, Pow2(64 - n), Pow2(n));
  }

  /** A non-zero multiple of c is at least c away from zero. */
  lemma MultipleOutside(d: int, c: int)
    requires c > 0
    ensures d * c <= 0 || d * c >= c
  {
    if d > 0 {
      assert d * c == (d - 1) * c + c;
    }
  }

  lemma ModMultiple(r: int, q: int, c: int)
    requires c > 0
    ensures (q * c + r) % c == r % c
  {
    var x := q * c + r;
    var d := x / c - r / c - q;
    assert x == (x / c) * c + x % c;
    assert r == (r / c) * c + r % c;
    assert d * c == r % c - x % c;
    MultipleOutside(d, c);
    MultipleOutside(-d, c);
  }

  /** Reducing modulo a multiple of c first does not change the remainder modulo c. */
  lemma ModModMultiple(x: int, m: int, c: int)
    requires c > 0 && m > 0 && m % c == 0
    ensures (x % m) % c == x % c
  {
    var q := m / c;
    assert m == q * c;
    assert x == (x / m) * m + x % m;
    assert (x / m) * m == ((x / m) * q) * c;
    ModMultiple(x % m, (x / m) * q, c);
  }

  /** Distinct offsets below c land on distinct remainders. */
  lemma ModDistinct(a: int, i: int, j: int, c: int)
    requires c > 0 && 0 <= i < j < c
    ensures (a + i) % c != (a + j) % c
  {
    var x, y := a + i, a + j;
    assert x == (x / c) * c + x % c;
    assert y == (y / c) * c + y % c;
    var d := y / c - x / c;
    assert d * c == (j - i) - (y % c - x % c);
    MultipleOutside(d, c);
  }

  /** A number below c is its own remainder. */
  lemma ModSmall(j: int, c: int)
    requires 0 <= j < c
    ensures j % c == j
  {
    var q := j / c;
    assert j == q * c + j % c;
    MultipleOutside(q, c);
    MultipleOutside(-q, c);
  }

  /** Reducing an addend modulo c does not change the sum's remainder. */
  lemma ModAddMod(a: int, b: int, c: int)
    requires c > 0
    ensures (a + b % c) % c == (a + b) % c
  {
    var q, r := b / c, b % c;
    assert b == q * c + r;
    ModMultiple(a + r, q, c);
  }

  /** Adding the remainder of j - a to a gives back j, for j below c. */
  lemma ModBack(a: int, j: int, c: int)
    requires 0 <= j < c
    ensures (a + (j - a) % c) % c == j
  {
    ModAddMod(a, j - a, c);
    assert a + (j - a) == j;
    ModSmall(j, c);
  }

  // ---------------------------------------------------------------------
  // Probing

  /** The slot of turn i of the probe loops: `(hash + i) % capacity`, the sum taken modulo 2^64. */
  function Probe(h: bv64, i: nat, cap: nat): (j: nat)
    requires cap > 0
    ensures j < cap
  {
    ((h as int + i) % U64) % cap
  }

  /** The turn of the probe loops that reaches slot j. */
  function Dist(h: bv64, j: nat, cap: nat): (i: nat)
    requires cap > 0
    ensures i < cap
  {
    (j - h as int) % cap
  }

  /** When the capacity divides 2^64 the wrap-around does not show. */
  lemma ProbeWrap(h: bv64, i: nat, cap: nat)
    requires cap > 0 && U64 % cap == 0
    ensures Probe(h, i, cap) == (h as int + i) % cap
  {
    ModModMultiple(h as int + i, U64, cap);
  }

  /** The probe loops visit each slot at most once. */
  lemma ProbeDistinct(h: bv64, i: nat, i': nat, cap: nat)
    requires cap > 0 && U64 % cap == 0 && i < i' < cap
    ensures Probe(h, i, cap) != Probe(h, i', cap)
  {
    ProbeWrap(h, i, cap);
    ProbeWrap(h, i', cap);
    ModDistinct(h as int, i, i', cap);
  }

  /** ... and reach every slot, slot j at turn Dist(h, j, cap). */
  lemma ProbeDist(h: bv64, j: nat, cap: nat)
    requires cap > 0 && U64 % cap == 0 && j < cap
    ensures Probe(h, Dist(h, j, cap), cap) == j
  {
    ProbeWrap(h, Dist(h, j, cap), cap);
    ModBack(h as int, j, cap);
  }

  /** The turn that reaches a slot is the turn that probed it. */
  lemma DistProbe(h: bv64, i: nat, cap: nat)
    requires cap > 0 && U64 % cap == 0 && i < cap
    ensures Dist(h, Probe(h, i, cap), cap) == i
  {
    var d := Dist(h, Probe(h, i, cap), cap);
    ProbeDist(h, Probe(h, i, cap), cap);
    if d < i {
      ProbeDistinct(h, d, i, cap);
    } else if i < d {
      ProbeDistinct(h, i, d, cap);
    }
  }

  // ---------------------------------------------------------------------
  // The operations on the buckets

  /** match: a key, neither NULL nor TOMBSTONE, of the same length and bytes. */
  predicate Matches<V>(e: HashEntry<V>, k: seq<bv8>)
  {
    e.key == Bytes(k)
  }

  /** get_entry's loop from turn i: the first slot holding k, unless a NULL slot comes first. */
  function FindFrom<V>(t: seq<HashEntry<V>>, k: seq<bv8>, h: bv64, i: nat): (r: Option<nat>)
    requires |t| > 0
    ensures r.Some? ==> r.value < |t| && Matches(t[r.value], k)
    decreases |t| - i
  {
    if i >= |t| then None
    else
      var j := Probe(h, i, |t|);
      if Matches(t[j], k) then Some(j)
      else if t[j].key == Null then None
      else FindFrom(t, k, h, i + 1)
  }

  /** get_entry: no slot without buckets, else the probe from the key's hash. */
  function Find<V>(t: seq<HashEntry<V>>, k: seq<bv8>): (r: Option<nat>)
    ensures r.Some? ==> r.value < |t| && Matches(t[r.value], k)
  {
    if |t| == 0 then None else FindFrom(t, k, Fnv(k), 0)
  }

  /** hashmap_get2: the value of the slot get_entry finds, or NULL. */
  function Get<V>(t: seq<HashEntry<V>>, k: seq<bv8>): Option<V>
  {
    match Find(t, k)
    case None => None
    case Some(j) => t[j].val
  }

  /** get_or_insert_entry's loop from turn i: the first slot holding k, a TOMBSTONE or NULL. */
  function SlotFrom<V>(t: seq<HashEntry<V>>, k: seq<bv8>, h: bv64, i: nat): (r: Option<nat>)
    requires |t| > 0
    ensures r.Some? ==> r.value < |t| && (Matches(t[r.value], k) || !t[r.value].key.Bytes?)
    decreases |t| - i
  {
    if i >= |t| then None
    else
      var j := Probe(h, i, |t|);
      if Matches(t[j], k) || t[j].key == Tombstone || t[j].key == Null then Some(j)
      else SlotFrom(t, k, h, i + 1)
  }

  /** The slot get_or_insert_entry returns, once the buckets exist and have room. */
  function Slot<V>(t: seq<HashEntry<V>>, k: seq<bv8>): (r: Option<nat>)
    requires |t| > 0
    ensures r.Some? ==> r.value < |t| && (Matches(t[r.value], k) || !t[r.value].key.Bytes?)
  {
    SlotFrom(t, k, Fnv(k), 0)
  }

  /** The entry get_or_insert_entry leaves in its slot: the key is set unless it was already there. */
  function Claim<V>(e: HashEntry<V>, k: seq<bv8>): HashEntry<V>
  {
    if Matches(e, k) then e else HashEntry(Bytes(k), e.val)
  }

  /** get_or_insert_entry and the store of hashmap_put2 on buckets that have room. */
  function Insert<V>(t: seq<HashEntry<V>>, k: seq<bv8>, v: Option<V>): (r: seq<HashEntry<V>>)
    ensures |r| == |t|
  {
    if |t| == 0 then t
    else
      match Slot(t, k)
      case None => t
      case Some(j) => t[j := Claim(t[j], k).(val := v)]
  }

  /** hashmap_delete2: the slot get_entry finds becomes a TOMBSTONE. */
  function Delete<V>(t: seq<HashEntry<V>>, k: seq<bv8>): (r: seq<HashEntry<V>>)
    ensures |r| == |t|
  {
    match Find(t, k)
    case None => t
    case Some(j) => t[j := t[j].(key := Tombstone)]
  }

  /** `used`: the slots that are not NULL, live keys and tombstones alike. */
  function CountUsed<V>(t: seq<HashEntry<V>>): (n: nat)
    ensures n <= |t|
  {
    if t == [] then 0 else CountUsed(t[..|t| - 1]) + (if t[|t| - 1].key == Null then 0 else 1)
  }

  /** The live entries, key and value, in slot order: what rehash copies. */
  function Live<V>(t: seq<HashEntry<V>>): (r: seq<(seq<bv8>, Option<V>)>)
    ensures |r| <= |t|
  {
    if t == [] then []
    else
      var e := t[|t| - 1];
      Live(t[..|t| - 1]) + (if e.key.Bytes? then [(e.key.s, e.val)] else [])
  }

  /** What the buckets hold: each live key and its value. */
  function Contents<V>(t: seq<HashEntry<V>>): map<seq<bv8>, Option<V>>
  {
    if t == [] then map[]
    else
      var e := t[|t| - 1];
      if e.key.Bytes? then Contents(t[..|t| - 1])[e.key.s := e.val] else Contents(t[..|t| - 1])
  }

  /** calloc'd buckets: every key NULL. */
  function EmptyTable<V>(cap: nat): (t: seq<HashEntry<V>>)
    ensures |t| == cap && forall j :: 0 <= j < cap ==> t[j] == HashEntry(Null, None)
  {
    seq(cap, _ => HashEntry(Null, None))
  }

  /** x / c >= m means x >= m * c. */
  lemma DivAtLeast(x: nat, c: nat, m: nat)
    requires c > 0 && x / c >= m
    ensures x >= m * c
  {
    assert x == (x / c) * c + x % c;
    assert (x / c) * c >= m * c;
  }

  /** rehash's size loop: double the capacity until nkeys fill less than LOW_WATERMARK percent. */
  function NewCapacity(cap: nat, nkeys: nat): (r: nat)
    requires cap > 0
    ensures r >= cap && (nkeys * 100) / r < LOW_WATERMARK
    decreases 2 * nkeys + 1 - cap
  {
    if (nkeys * 100) / cap >= LOW_WATERMARK then
      DivAtLeast(nkeys * 100, cap, LOW_WATERMARK);
      NewCapacity(cap * 2, nkeys)
    else cap
  }

  /** hashmap_put2 on each entry in turn, into buckets that have room. */
  function InsertAll<V>(t: seq<HashEntry<V>>, es: seq<(seq<bv8>, Option<V>)>): (r: seq<HashEntry<V>>)
    ensures |r| == |t|
  {
    if es == [] then t else Insert(InsertAll(t, es[..|es| - 1]), es[|es| - 1].0, es[|es| - 1].1)
  }

  /** rehash: the live entries, in slot order, put into fresh buckets of the new capacity. */
  function Rehashed<V>(t: seq<HashEntry<V>>): (r: seq<HashEntry<V>>)
    requires |t| > 0
    ensures |r| == NewCapacity(|t|, |Live(t)|)
  {
    InsertAll(EmptyTable(NewCapacity(|t|, |Live(t)|)), Live(t))
  }

  /** The test of get_or_insert_entry: `used` at HIGH_WATERMARK percent or more. */
  predicate NeedsRehash(used: nat, cap: nat)
    requires cap > 0
  {
    (used * 100) / cap >= HIGH_WATERMARK
  }

  /** The buckets get_or_insert_entry probes: allocated, rehashed, or as they were. */
  function Prepared<V>(t: seq<HashEntry<V>>): (r: seq<HashEntry<V>>)
  {
    if |t| == 0 then EmptyTable(INIT_SIZE)
    else if NeedsRehash(CountUsed(t), |t|) then Rehashed(t)
    else t
  }

  /** hashmap_put2. */
  function Put<V>(t: seq<HashEntry<V>>, k: seq<bv8>, v: Option<V>): seq<HashEntry<V>>
  {
    Insert(Prepared(t), k, v)
  }

  // ---------------------------------------------------------------------
  // The invariant

  /** No key is stored in two slots. */
  predicate DistinctKeys<V>(t: seq<HashEntry<V>>)
  {
    forall a, b :: 0 <= a < b < |t| && t[a].key.Bytes? ==> t[a].key != t[b].key
  }

  /** Every probe turn before the one that reaches slot j meets a slot that is not NULL. */
  predicate Reachable<V>(t: seq<HashEntry<V>>, j: nat)
    requires j < |t| && t[j].key.Bytes?
  {
    var h := Fnv(t[j].key.s);
    forall i :: 0 <= i < Dist(h, j, |t|) ==> t[Probe(h, i, |t|)].key != Null
  }

  /** A probe from its hash reaches every stored key before it meets a NULL slot. */
  predicate ChainsIntact<V>(t: seq<HashEntry<V>>)
  {
    forall j :: 0 <= j < |t| && t[j].key.Bytes? ==> Reachable(t, j)
  }

  /**
   * What the operations keep of allocated buckets: a capacity of at least
   * INIT_SIZE dividing 2^64, a NULL slot left, no key twice, and every key
   * reachable by its probe.
   */
  predicate TableInv<V>(t: seq<HashEntry<V>>)
  {
    |t| >= INIT_SIZE && U64 % |t| == 0 && CountUsed(t) < |t| && DistinctKeys(t) && ChainsIntact(t)
  }

  predicate NoTombstones<V>(t: seq<HashEntry<V>>)
  {
    forall j :: 0 <= j < |t| ==> t[j].key != Tombstone
  }

  /**
   * The key is stored, yet get_or_insert_entry would stop at a TOMBSTONE
   * earlier on its probe path and store it a second time.
   */
  predicate Shadowed<V>(t: seq<HashEntry<V>>, k: seq<bv8>)
    requires |t| > 0
  {
    k in Contents(t) && Slot(t, k).Some? && t[Slot(t, k).value].key == Tombstone
  }

  // ---------------------------------------------------------------------
  // Contents, counts and slot updates

  /** The contents after a slot loses its key. */
  function Removed<V>(m: map<seq<bv8>, Option<V>>, key: Key): map<seq<bv8>, Option<V>>
  {
    if key.Bytes? then m - {key.s} else m
  }

  /** The contents after a slot gains entry e. */
  function Added<V>(m: map<seq<bv8>, Option<V>>, e: HashEntry<V>): map<seq<bv8>, Option<V>>
  {
    if e.key.Bytes? then m[e.key.s := e.val] else m
  }

  lemma DistinctPrefix<V>(t: seq<HashEntry<V>>, n: nat)
    requires DistinctKeys(t) && n <= |t|
    ensures DistinctKeys(t[..n])
  {
    forall a, b | 0 <= a < b < n && t[..n][a].key.Bytes?
      ensures t[..n][a].key != t[..n][b].key
    {
      assert t[..n][a] == t[a] && t[..n][b] == t[b];
    }
  }

  /** A key is in the contents exactly when some slot holds it. */
  lemma {:induction false} ContentsHas<V>(t: seq<HashEntry<V>>, k: seq<bv8>)
    ensures k in Contents(t) <==> exists j :: 0 <= j < |t| && t[j].key == Bytes(k)
  {
    if t != [] {
      var p := t[..|t| - 1];
      ContentsHas(p, k);
      if k in Contents(p) {
        var j :| 0 <= j < |p| && p[j].key == Bytes(k);
        assert t[j] == p[j];
      }
      if exists j :: 0 <= j < |t| && t[j].key == Bytes(k) {
        var j :| 0 <= j < |t| && t[j].key == Bytes(k);
        if j < |p| {
          assert p[j] == t[j];
        }
      }
    }
  }

  /** With no key stored twice, the contents give each stored key the value of its slot. */
  lemma {:induction false} ContentsAt<V>(t: seq<HashEntry<V>>, j: nat)
    requires DistinctKeys(t) && j < |t| && t[j].key.Bytes?
    ensures t[j].key.s in Contents(t) && Contents(t)[t[j].key.s] == t[j].val
  {
    var p := t[..|t| - 1];
    if j < |p| {
      DistinctPrefix(t, |p|);
      ContentsAt(p, j);
      assert p[j] == t[j];
      assert t[j].key != t[|t| - 1].key;
    }
  }

  /** Changing one slot changes the contents by that slot's old and new keys only. */
  lemma {:induction false} ContentsUpdate<V>(t: seq<HashEntry<V>>, j: nat, e: HashEntry<V>)
    requires j < |t| && DistinctKeys(t) && DistinctKeys(t[j := e])
    ensures Contents(t[j := e]) == Added(Removed(Contents(t), t[j].key), e)
  {
    var n := |t| - 1;
    var p, p' := t[..n], t[j := e][..n];
    DistinctPrefix(t, n);
    DistinctPrefix(t[j := e], n);
    if j == n {
      assert p' == p;
      if t[j].key.Bytes? {
        ContentsHas(p, t[j].key.s);
      }
    } else {
      assert p' == p[j := e];
      ContentsUpdate(p, j, e);
      assert t[n] == t[j := e][n];
      assert t[n].key.Bytes? ==> t[n].key != t[j].key && t[n].key != e.key by {
        assert t[j := e][j] == e;
      }
    }
  }

  /** `used` after changing one slot. */
  lemma {:induction false} CountUsedUpdate<V>(t: seq<HashEntry<V>>, j: nat, e: HashEntry<V>)
    requires j < |t|
    ensures CountUsed(t[j := e]) == CountUsed(t) - (if t[j].key == Null then 0 else 1) + (if e.key == Null then 0 else 1)
  {
    var n := |t| - 1;
    if j == n {
      assert t[j := e][..n] == t[..n];
    } else {
      assert t[j := e][..n] == t[..n][j := e];
      CountUsedUpdate(t[..n], j, e);
    }
  }

  /** A `used` below the capacity leaves a NULL slot. */
  lemma {:induction false} NullSlot<V>(t: seq<HashEntry<V>>) returns (z: nat)
    requires CountUsed(t) < |t|
    ensures z < |t| && t[z].key == Null
  {
    var p := t[..|t| - 1];
    if t[|t| - 1].key == Null {
      z := |t| - 1;
    } else {
      z := NullSlot(p);
      assert p[z] == t[z];
    }
  }

  /** Live keys are among the used slots. */
  lemma {:induction false} LiveUsed<V>(t: seq<HashEntry<V>>)
    ensures |Live(t)| <= CountUsed(t)
  {
    if t != [] {
      LiveUsed(t[..|t| - 1]);
    }
  }

  lemma {:induction false} LivePrefix<V>(t: seq<HashEntry<V>>, n: nat)
    requires n <= |t|
    ensures |Live(t[..n])| <= |Live(t)|
    decreases |t|
  {
    if n < |t| {
      assert t[..|t| - 1][..n] == t[..n];
      LivePrefix(t[..|t| - 1], n);
    } else {
      assert t[..n] == t;
    }
  }

  /** Filling a slot keeps every chain intact, if a key it gets is reachable there. */
  lemma ChainsUpdate<V>(t: seq<HashEntry<V>>, j: nat, e: HashEntry<V>)
    requires j < |t| && ChainsIntact(t) && e.key != Null
    requires e.key.Bytes? ==> Reachable(t[j := e], j)
    ensures ChainsIntact(t[j := e])
  {
    var t' := t[j := e];
    forall m | 0 <= m < |t'| && t'[m].key.Bytes? && m != j
      ensures Reachable(t', m)
    {
      assert Reachable(t, m);
    }
  }

  // ---------------------------------------------------------------------
  // Probe loops

  /** get_entry's loop reaches the slot holding k. */
  lemma {:induction false} FindReaches<V>(t: seq<HashEntry<V>>, k: seq<bv8>, m: nat, i: nat)
    requires TableInv(t) && m < |t| && t[m].key == Bytes(k) && i <= Dist(Fnv(k), m, |t|)
    ensures FindFrom(t, k, Fnv(k), i) == Some(m)
    decreases |t| - i
  {
    var h := Fnv(k);
    ProbeDist(h, m, |t|);
    if i < Dist(h, m, |t|) {
      var j := Probe(h, i, |t|);
      ProbeDistinct(h, i, Dist(h, m, |t|), |t|);
      assert Reachable(t, m);
      assert !Matches(t[j], k) by {
        if j < m {
          assert t[j].key.Bytes? ==> t[j].key != t[m].key;
        } else {
          assert t[m].key != t[j].key;
        }
      }
      FindReaches(t, k, m, i + 1);
    }
  }

  /** get_entry finds a slot exactly when the key is stored. */
  lemma FindContents<V>(t: seq<HashEntry<V>>, k: seq<bv8>)
    requires TableInv(t)
    ensures Find(t, k).Some? <==> k in Contents(t)
    ensures k in Contents(t) ==> Contents(t)[k] == t[Find(t, k).value].val
  {
    ContentsHas(t, k);
    if k in Contents(t) {
      var m :| 0 <= m < |t| && t[m].key == Bytes(k);
      FindReaches(t, k, m, 0);
      ContentsAt(t, m);
    }
  }

  /** The turn at which get_or_insert_entry's loop stops, past slots holding other keys only. */
  lemma {:induction false} SlotTurn<V>(t: seq<HashEntry<V>>, k: seq<bv8>, h: bv64, i: nat) returns (d: nat)
    requires |t| > 0 && SlotFrom(t, k, h, i).Some?
    ensures i <= d < |t| && Probe(h, d, |t|) == SlotFrom(t, k, h, i).value
    ensures forall i' :: i <= i' < d ==> t[Probe(h, i', |t|)].key.Bytes? && !Matches(t[Probe(h, i', |t|)], k)
    decreases |t| - i
  {
    var j := Probe(h, i, |t|);
    if Matches(t[j], k) || t[j].key == Tombstone || t[j].key == Null {
      d := i;
    } else {
      d := SlotTurn(t, k, h, i + 1);
    }
  }

  /** get_or_insert_entry's loop stops at or before a NULL slot. */
  lemma {:induction false} SlotFound<V>(t: seq<HashEntry<V>>, k: seq<bv8>, z: nat, i: nat)
    requires |t| > 0 && U64 % |t| == 0 && z < |t| && t[z].key == Null && i <= Dist(Fnv(k), z, |t|)
    ensures SlotFrom(t, k, Fnv(k), i).Some?
    decreases |t| - i
  {
    ProbeDist(Fnv(k), z, |t|);
    if i < Dist(Fnv(k), z, |t|) {
      SlotFound(t, k, z, i + 1);
    }
  }

  /** get_or_insert_entry's loop stops at the slot of a stored key or at a TOMBSTONE before it. */
  lemma {:induction false} SlotBeforeStored<V>(t: seq<HashEntry<V>>, k: seq<bv8>, m: nat, i: nat)
    requires TableInv(t) && m < |t| && t[m].key == Bytes(k) && i <= Dist(Fnv(k), m, |t|)
    ensures SlotFrom(t, k, Fnv(k), i).Some?
    ensures SlotFrom(t, k, Fnv(k), i).value == m || t[SlotFrom(t, k, Fnv(k), i).value].key == Tombstone
    decreases |t| - i
  {
    var h := Fnv(k);
    ProbeDist(h, m, |t|);
    if i < Dist(h, m, |t|) {
      var j := Probe(h, i, |t|);
      ProbeDistinct(h, i, Dist(h, m, |t|), |t|);
      assert Reachable(t, m);
      assert !Matches(t[j], k) by {
        if j < m {
          assert t[j].key.Bytes? ==> t[j].key != t[m].key;
        } else {
          assert t[m].key != t[j].key;
        }
      }
      if t[j].key != Tombstone {
        SlotBeforeStored(t, k, m, i + 1);
      }
    }
  }

  /**
   * Where get_or_insert_entry stops under the invariant: at the slot of a
   * stored key or a TOMBSTONE before it; at a NULL or TOMBSTONE slot for
   * any other key. The key it then claims is reachable there.
   */
  lemma SlotFacts<V>(t: seq<HashEntry<V>>, k: seq<bv8>) returns (j: nat)
    requires TableInv(t)
    ensures Slot(t, k) == Some(j)
    ensures k in Contents(t) ==> Matches(t[j], k) || t[j].key == Tombstone
    ensures Reachable(t[j := Claim(t[j], k)], j)
  {
    var h := Fnv(k);
    ContentsHas(t, k);
    if k in Contents(t) {
      var m :| 0 <= m < |t| && t[m].key == Bytes(k);
      SlotBeforeStored(t, k, m, 0);
    } else {
      var z := NullSlot(t);
      SlotFound(t, k, z, 0);
    }
    j := Slot(t, k).value;
    var d := SlotTurn(t, k, h, 0);
    DistProbe(h, d, |t|);
    var t' := t[j := Claim(t[j], k)];
    forall i | 0 <= i < d
      ensures t'[Probe(h, i, |t|)].key != Null
    {
      ProbeDistinct(h, i, d, |t|);
    }
  }

  /**
   * get_or_insert_entry's claim under the invariant: the slot it returns,
   * with the key set there, keeps the invariant, and `used` grows exactly
   * when the slot was NULL.
   */
  lemma ClaimInv<V>(t: seq<HashEntry<V>>, k: seq<bv8>) returns (j: nat)
    requires TableInv(t) && CountUsed(t) + 1 < |t| && !Shadowed(t, k)
    ensures Slot(t, k) == Some(j)
    ensures TableInv(t[j := Claim(t[j], k)])
    ensures CountUsed(t[j := Claim(t[j], k)]) == CountUsed(t) + (if t[j].key == Null then 1 else 0)
  {
    j := SlotFacts(t, k);
    ContentsHas(t, k);
    InsertAt(t, k, t[j].val, j);
    assert Claim(t[j], k).(val := t[j].val) == Claim(t[j], k);
  }

  /** put is get_or_insert_entry's claim of slot j of the prepared buckets and the store of the value there. */
  lemma PutAt<V>(t: seq<HashEntry<V>>, k: seq<bv8>, v: Option<V>, j: nat)
    requires |t| == 0 || (TableInv(t) && U64 % (2 * |t|) == 0)
    requires Slot(Prepared(t), k) == Some(j)
    ensures Put(t, k, v) == Prepared(t)[j := Claim(Prepared(t)[j], k).(val := v)]
  {
    PreparedInv(t);
  }

  /** Without a rehash, put is get_or_insert_entry's claim and the store of the value. */
  lemma PutNoRehash<V>(t: seq<HashEntry<V>>, k: seq<bv8>, v: Option<V>)
    requires |t| > 0 && !NeedsRehash(CountUsed(t), |t|)
    ensures Put(t, k, v) == Insert(t, k, v)
  {
  }

  // ---------------------------------------------------------------------
  // What the operations do to the contents

  /** The contents of fresh buckets are empty, and fresh buckets keep the invariant. */
  lemma EmptyInv<V>(cap: nat)
    requires cap >= INIT_SIZE && U64 % cap == 0
    ensures TableInv(EmptyTable<V>(cap)) && NoTombstones(EmptyTable<V>(cap))
    ensures Contents(EmptyTable<V>(cap)) == map[] && CountUsed(EmptyTable<V>(cap)) == 0
  {
    var t := EmptyTable<V>(cap);
    ContentsCleared(t);
  }

  lemma {:induction false} ContentsCleared<V>(t: seq<HashEntry<V>>)
    requires forall j :: 0 <= j < |t| ==> t[j].key == Null
    ensures Contents(t) == map[] && CountUsed(t) == 0
  {
    if t != [] {
      ContentsCleared(t[..|t| - 1]);
    }
  }

  /**
   * hashmap_put2 on buckets with room, for a key get_or_insert_entry does
   * not shadow: the key now has the value, every other key keeps its own,
   * and `used` grows exactly when a NULL slot is filled.
   */
  lemma InsertInv<V>(t: seq<HashEntry<V>>, k: seq<bv8>, v: Option<V>)
    requires TableInv(t) && CountUsed(t) + 1 < |t| && !Shadowed(t, k)
    ensures TableInv(Insert(t, k, v))
    ensures Contents(Insert(t, k, v)) == Contents(t)[k := v]
    ensures k in Contents(t) ==> CountUsed(Insert(t, k, v)) == CountUsed(t)
    ensures NoTombstones(t) ==> NoTombstones(Insert(t, k, v))
    ensures NoTombstones(t) && k !in Contents(t) ==> CountUsed(Insert(t, k, v)) == CountUsed(t) + 1
  {
    var j := SlotFacts(t, k);
    var e := Claim(t[j], k).(val := v);
    assert Insert(t, k, v) == t[j := e];
    ContentsHas(t, k);
    InsertAt(t, k, v, j);
  }

  /** Storing k and its value in slot j, the slot get_or_insert_entry returned. */
  lemma InsertAt<V>(t: seq<HashEntry<V>>, k: seq<bv8>, v: Option<V>, j: nat)
    requires TableInv(t) && CountUsed(t) + 1 < |t| && j < |t|
    requires Matches(t[j], k) || (!t[j].key.Bytes? && k !in Contents(t))
    requires Reachable(t[j := Claim(t[j], k)], j)
    ensures TableInv(t[j := Claim(t[j], k).(val := v)])
    ensures Contents(t[j := Claim(t[j], k).(val := v)]) == Contents(t)[k := v]
    ensures CountUsed(t[j := Claim(t[j], k).(val := v)]) == CountUsed(t) + (if t[j].key == Null then 1 else 0)
  {
    var e := Claim(t[j], k).(val := v);
    var t' := t[j := e];
    assert Reachable(t', j) by {
      assert t[j := Claim(t[j], k)] == t'[j := Claim(t[j], k)];
    }
    ContentsHas(t, k);
    assert DistinctKeys(t') by {
      forall a, b | 0 <= a < b < |t'| && t'[a].key.Bytes?
        ensures t'[a].key != t'[b].key
      {
        if a != j && b != j {
          assert t'[a] == t[a] && t'[b] == t[b];
        }
      }
    }
    ContentsUpdate(t, j, e);
    ChainsUpdate(t, j, e);
    CountUsedUpdate(t, j, e);
  }

  /**
   * hashmap_delete2: the key is gone, every other key keeps its value,
   * `used` is unchanged, and deleting an absent key changes nothing.
   */
  lemma DeleteInv<V>(t: seq<HashEntry<V>>, k: seq<bv8>)
    requires TableInv(t)
    ensures TableInv(Delete(t, k))
    ensures Contents(Delete(t, k)) == Contents(t) - {k}
    ensures CountUsed(Delete(t, k)) == CountUsed(t)
    ensures k !in Contents(t) ==> Delete(t, k) == t
  {
    FindContents(t, k);
    if k in Contents(t) {
      var j := Find(t, k).value;
      var e := t[j].(key := Tombstone);
      var t' := t[j := e];
      assert DistinctKeys(t') by {
        forall a, b | 0 <= a < b < |t'| && t'[a].key.Bytes?
          ensures t'[a].key != t'[b].key
        {
          assert a != j;
          if b != j {
            assert t'[a] == t[a] && t'[b] == t[b];
          }
        }
      }
      ContentsUpdate(t, j, e);
      ChainsUpdate(t, j, e);
      CountUsedUpdate(t, j, e);
    }
  }

  /** hashmap_get2 under the invariant: the value the contents give the key, or NULL. */
  lemma GetContents<V>(t: seq<HashEntry<V>>, k: seq<bv8>)
    requires |t| == 0 || TableInv(t)
    ensures Get(t, k) == if k in Contents(t) then Contents(t)[k] else None
  {
    if |t| > 0 {
      FindContents(t, k);
    }
  }

  /** After put(k, v) get(k) is v, and every other key reads as before. */
  lemma GetPut<V>(t: seq<HashEntry<V>>, k: seq<bv8>, v: Option<V>, k': seq<bv8>)
    requires |t| == 0 || (TableInv(t) && U64 % (2 * |t|) == 0)
    requires |t| > 0 && !NeedsRehash(CountUsed(t), |t|) ==> !Shadowed(t, k)
    ensures Get(Put(t, k, v), k') == if k' == k then v else Get(t, k')
  {
    PutInv(t, k, v);
    GetContents(Put(t, k, v), k');
    GetContents(t, k');
  }

  /** After delete(k) get(k) is NULL, and every other key reads as before. */
  lemma GetDelete<V>(t: seq<HashEntry<V>>, k: seq<bv8>, k': seq<bv8>)
    requires |t| == 0 || TableInv(t)
    ensures Get(Delete(t, k), k') == if k' == k then None else Get(t, k')
  {
    if |t| > 0 {
      DeleteInv(t, k);
      GetContents(Delete(t, k), k');
      GetContents(t, k');
    }
  }

  // ---------------------------------------------------------------------
  // Rehash and put

  /** x / c < m means x < m * c. */
  lemma DivBelow(x: nat, c: nat, m: nat)
    requires c > 0 && x / c < m
    ensures x < m * c
  {
    assert x == (x / c) * c + x % c;
    assert (x / c + 1) * c <= m * c;
  }

  /** x < m * c means x / c < m. */
  lemma DivUnder(x: nat, c: nat, m: nat)
    requires c > 0 && x < m * c
    ensures x / c < m
  {
    assert x == (x / c) * c + x % c;
    assert (x / c - m) * c < 0;
  }

  /** With fewer keys than slots, rehash's size loop doubles the capacity at most once. */
  lemma NewCapacityOnce(cap: nat, n: nat)
    requires cap > 0 && n < cap
    ensures NewCapacity(cap, n) == cap || NewCapacity(cap, n) == 2 * cap
  {
    if (n * 100) / cap >= LOW_WATERMARK {
      DivUnder(n * 100, 2 * cap, LOW_WATERMARK);
    }
  }

  /** rehash's copy loop after the first i slots: their live entries, put into fresh buckets. */
  lemma {:induction false} RehashPrefix<V>(t: seq<HashEntry<V>>, cap: nat, i: nat)
    requires DistinctKeys(t) && i <= |t| && cap >= INIT_SIZE && U64 % cap == 0 && |Live(t)| < cap
    ensures TableInv(InsertAll(EmptyTable<V>(cap), Live(t[..i])))
    ensures NoTombstones(InsertAll(EmptyTable<V>(cap), Live(t[..i])))
    ensures Contents(InsertAll(EmptyTable<V>(cap), Live(t[..i]))) == Contents(t[..i])
    ensures CountUsed(InsertAll(EmptyTable<V>(cap), Live(t[..i]))) == |Live(t[..i])|
  {
    if i == 0 {
      EmptyInv<V>(cap);
    } else {
      RehashPrefix(t, cap, i - 1);
      var p, q := t[..i], t[..i - 1];
      assert p[..i - 1] == q;
      var r := InsertAll(EmptyTable<V>(cap), Live(q));
      if t[i - 1].key.Bytes? {
        var k, v := t[i - 1].key.s, t[i - 1].val;
        assert Live(p) == Live(q) + [(k, v)];
        assert Live(p)[..|Live(p)| - 1] == Live(q);
        ContentsHas(q, k);
        LivePrefix(t, i);
        InsertInv(r, k, v);
      } else {
        assert Live(p) == Live(q);
      }
    }
  }

  /** The copy loop's next turn puts slot i's entry, when live, into the new buckets. */
  lemma RehashStep<V>(t: seq<HashEntry<V>>, b: seq<HashEntry<V>>, i: nat)
    requires i < |t|
    ensures InsertAll(b, Live(t[..i + 1])) ==
      if t[i].key.Bytes? then Insert(InsertAll(b, Live(t[..i])), t[i].key.s, t[i].val) else InsertAll(b, Live(t[..i]))
  {
    var p, q := t[..i + 1], t[..i];
    assert p[..i] == q && p[|p| - 1] == t[i];
    if t[i].key.Bytes? {
      var es := Live(p);
      assert es == Live(q) + [(t[i].key.s, t[i].val)];
      assert es[..|es| - 1] == Live(q) && es[|es| - 1] == (t[i].key.s, t[i].val);
    } else {
      assert Live(p) == Live(q);
    }
  }

  /** Fresh buckets filled with no more keys than rehash sized them for never need a rehash. */
  lemma RehashRoom(used: nat, nkeys: nat, cap: nat)
    requires cap > 0 && used <= nkeys && (nkeys * 100) / cap < LOW_WATERMARK
    ensures !NeedsRehash(used, cap)
  {
    DivBelow(nkeys * 100, cap, LOW_WATERMARK);
    DivUnder(used * 100, cap, HIGH_WATERMARK);
  }

  /**
   * rehash: only the live entries, each with its value, in fresh buckets
   * without tombstones, `used` equal to their number, and the capacity
   * kept or doubled.
   */
  lemma RehashInv<V>(t: seq<HashEntry<V>>)
    requires TableInv(t) && U64 % (2 * |t|) == 0
    ensures TableInv(Rehashed(t)) && NoTombstones(Rehashed(t))
    ensures Contents(Rehashed(t)) == Contents(t) && CountUsed(Rehashed(t)) == |Live(t)|
    ensures |Rehashed(t)| == |t| || |Rehashed(t)| == 2 * |t|
  {
    LiveUsed(t);
    var n := |Live(t)|;
    NewCapacityOnce(|t|, n);
    RehashPrefix(t, NewCapacity(|t|, n), |t|);
    assert t[..|t|] == t;
  }

  /** The buckets get_or_insert_entry probes keep the contents and have room for one more key. */
  lemma PreparedInv<V>(t: seq<HashEntry<V>>)
    requires |t| == 0 || (TableInv(t) && U64 % (2 * |t|) == 0)
    ensures TableInv(Prepared(t)) && Contents(Prepared(t)) == Contents(t)
    ensures CountUsed(Prepared(t)) + 1 < |Prepared(t)|
    ensures |t| == 0 || NeedsRehash(CountUsed(t), |t|) ==> NoTombstones(Prepared(t))
  {
    if |t| == 0 {
      Pow2Divides(4);
      EmptyInv<V>(INIT_SIZE);
    } else if NeedsRehash(CountUsed(t), |t|) {
      RehashInv(t);
      DivBelow(|Live(t)| * 100, |Rehashed(t)|, LOW_WATERMARK);
    } else {
      DivBelow(CountUsed(t) * 100, |t|, HIGH_WATERMARK);
    }
  }

  /**
   * hashmap_put2, for a key not shadowed by a TOMBSTONE when no rehash
   * comes first: the key has the new value, the others keep theirs, and
   * overwriting a stored key without a rehash leaves `used` alone.
   */
  lemma PutInv<V>(t: seq<HashEntry<V>>, k: seq<bv8>, v: Option<V>)
    requires |t| == 0 || (TableInv(t) && U64 % (2 * |t|) == 0)
    requires |t| > 0 && !NeedsRehash(CountUsed(t), |t|) ==> !Shadowed(t, k)
    ensures TableInv(Put(t, k, v)) && Contents(Put(t, k, v)) == Contents(t)[k := v]
    ensures |t| > 0 && !NeedsRehash(CountUsed(t), |t|) && k in Contents(t) ==> CountUsed(Put(t, k, v)) == CountUsed(t)
  {
    PreparedInv(t);
    InsertInv(Prepared(t), k, v);
  }

  // ---------------------------------------------------------------------
  // The shadowed key

  /** Buckets with a TOMBSTONE at the home slot of k and k, holding v, in the next slot. */
  function ShadowTable<V>(k: seq<bv8>, v: V): seq<HashEntry<V>>
  {
    var h := Fnv(k);
    EmptyTable<V>(INIT_SIZE)[Probe(h, 0, INIT_SIZE) := HashEntry(Tombstone, None)][Probe(h, 1, INIT_SIZE) := HashEntry(Bytes(k), Some(v))]
  }

  /** The TOMBSTONE and k occupy two slots. */
  lemma ShadowTableUsed<V>(k: seq<bv8>, v: V)
    ensures CountUsed(ShadowTable(k, v)) == 2
  {
    var h := Fnv(k);
    var h0, h1 := Probe(h, 0, INIT_SIZE), Probe(h, 1, INIT_SIZE);
    Pow2Divides(4);
    ProbeDistinct(h, 0, 1, INIT_SIZE);
    var e := EmptyTable<V>(INIT_SIZE);
    var t1 := e[h0 := HashEntry(Tombstone, None)];
    assert ShadowTable(k, v) == t1[h1 := HashEntry(Bytes(k), Some(v))];
    ContentsCleared(e);
    CountUsedUpdate(e, h0, HashEntry(Tombstone, None));
    CountUsedUpdate(t1, h1, HashEntry(Bytes(k), Some(v)));
  }

  /** The slots of the buckets: a TOMBSTONE at turn 0, k at turn 1, the rest NULL. */
  lemma ShadowTableSlots<V>(k: seq<bv8>, v: V)
    ensures var t, h := ShadowTable(k, v), Fnv(k);
      |t| == INIT_SIZE && Probe(h, 0, INIT_SIZE) != Probe(h, 1, INIT_SIZE) &&
      t[Probe(h, 0, INIT_SIZE)].key == Tombstone && t[Probe(h, 1, INIT_SIZE)] == HashEntry(Bytes(k), Some(v)) &&
      forall j :: 0 <= j < INIT_SIZE && t[j].key.Bytes? ==> j == Probe(h, 1, INIT_SIZE)
  {
    Pow2Divides(4);
    ProbeDistinct(Fnv(k), 0, 1, INIT_SIZE);
  }

  /** The buckets keep the invariant, and k is shadowed there. */
  lemma ShadowTableInv<V>(k: seq<bv8>, v: V)
    ensures TableInv(ShadowTable(k, v)) && Shadowed(ShadowTable(k, v), k)
    ensures CountUsed(ShadowTable(k, v)) == 2
  {
    var h := Fnv(k);
    var h0, h1 := Probe(h, 0, INIT_SIZE), Probe(h, 1, INIT_SIZE);
    Pow2Divides(4);
    DistProbe(h, 1, INIT_SIZE);
    var t := ShadowTable(k, v);
    ShadowTableUsed(k, v);
    ShadowTableSlots(k, v);
    ContentsHas(t, k);
    assert Reachable(t, h1) by {
      forall i | 0 <= i < Dist(h, h1, INIT_SIZE)
        ensures t[Probe(h, i, INIT_SIZE)].key != Null
      {
        assert i == 0;
      }
    }
  }

  /**
   * get_or_insert_entry reuses the first TOMBSTONE it meets without looking
   * further for the key. On buckets that keep the invariant, put stores k a
   * second time, and after delete(k) get(k) still returns the old value.
   */
  lemma ShadowedKeyStoredTwice<V>(k: seq<bv8>, v1: V, v2: V)
    ensures TableInv(ShadowTable(k, v1)) && Shadowed(ShadowTable(k, v1), k)
    ensures !DistinctKeys(Put(ShadowTable(k, v1), k, Some(v2)))
    ensures Get(Delete(Put(ShadowTable(k, v1), k, Some(v2)), k), k) == Some(v1)
  {
    var h := Fnv(k);
    var h0, h1 := Probe(h, 0, INIT_SIZE), Probe(h, 1, INIT_SIZE);
    ProbeDistinct(h, 0, 1, INIT_SIZE);
    var t := ShadowTable(k, v1);
    ShadowTableInv(k, v1);
    assert |t| == INIT_SIZE && (2 * 100) / INIT_SIZE < HIGH_WATERMARK;
    assert !NeedsRehash(CountUsed(t), |t|);
    assert Prepared(t) == t;
    var t2 := t[h0 := HashEntry(Bytes(k), Some(v2))];
    assert Put(t, k, Some(v2)) == t2;
    assert t2[h0].key == t2[h1].key;
    var t3 := t2[h0 := HashEntry(Tombstone, Some(v2))];
    assert Delete(t2, k) == t3;
    assert FindFrom(t3, k, h, 1) == Some(h1);
  }

  // ---------------------------------------------------------------------
  // The corrected insert

  /**
   * get_or_insert_entry as evidently intended: the slot get_entry finds
   * when the key is stored, and only for a key that is not stored the
   * first TOMBSTONE or NULL slot on its probe; then the store of the value.
   */
  function InsertChecked<V>(t: seq<HashEntry<V>>, k: seq<bv8>, v: Option<V>): (r: seq<HashEntry<V>>)
    ensures |r| == |t|
  {
    if |t| == 0 then t
    else
      match Find(t, k)
      case Some(j) => t[j := t[j].(val := v)]
      case None => Insert(t, k, v)
  }

  /**
   * The corrected insert needs no condition on tombstones: it keeps the
   * invariant, so k is stored once, and the contents map k to v.
   */
  lemma InsertCheckedInv<V>(t: seq<HashEntry<V>>, k: seq<bv8>, v: Option<V>)
    requires TableInv(t) && CountUsed(t) + 1 < |t|
    ensures TableInv(InsertChecked(t, k, v))
    ensures Contents(InsertChecked(t, k, v)) == Contents(t)[k := v]
  {
    FindContents(t, k);
    match Find(t, k)
    case Some(j) =>
      assert Claim(t[j], k) == t[j] && t[j := t[j]] == t;
      assert Reachable(t, j);
      InsertAt(t, k, v, j);
    case None =>
      InsertInv(t, k, v);
  }

  /** On the buckets of ShadowedKeyStoredTwice the corrected insert stores k once, and delete(k) removes it. */
  lemma ShadowedKeyStoredOnce<V>(k: seq<bv8>, v1: V, v2: V)
    ensures DistinctKeys(InsertChecked(ShadowTable(k, v1), k, Some(v2)))
    ensures Get(InsertChecked(ShadowTable(k, v1), k, Some(v2)), k) == Some(v2)
    ensures Get(Delete(InsertChecked(ShadowTable(k, v1), k, Some(v2)), k), k) == None
  {
    var t := ShadowTable(k, v1);
    ShadowTableInv(k, v1);
    var t2 := InsertChecked(t, k, Some(v2));
    InsertCheckedInv(t, k, Some(v2));
    GetContents(t2, k);
    GetDelete(t2, k, k);
  }
}
