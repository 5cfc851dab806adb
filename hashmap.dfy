/**
 * The HashMap of hashmap/src/hashmap.c: a bucket array, its capacity and
 * the count of used slots, updated in place by put and delete.
 *
 * Each method is proved against the function of the buckets it computes
 * (module HashTable). With the lemmas there, put, get and delete are proved
 * against `Contents`, the map from each stored key to its value.
 *
 * Keys are byte strings held by value; the C map keeps the caller's
 * pointer, so a caller that later changes a key's bytes changes the stored
 * key. That aliasing is not part of the model.
 */
module HashMaps {
  import opened Wrappers
  import opened HashTable

  /** 2^30 */
  lemma Pow2Of30()
    ensures Pow2(30) == 0x4000_0000
  {
    Pow2Of32();
    Pow2Add(30, 2);
  }

  /** strlen: the index of the first NUL byte. */
  function Strlen(s: seq<bv8>): (n: nat)
    requires 0 in s
    ensures n < |s| && s[n] == 0 && forall i :: 0 <= i < n ==> s[i] != 0
  {
    if s[0] == 0 then 0 else 1 + Strlen(s[1..])
  }

  /** fnv_hash */
  method FnvHash(key: seq<bv8>) returns (hash: bv64)
    ensures hash == Fnv(key)
  {
    hash := FNV_OFFSET_BASIS;
    for i := 0 to |key|
      invariant hash == Fnv(key[..i])
    {
      FnvStep(key, i);
      hash := FnvRound(hash, key[i]);
    }
    assert key[..|key|] == key;
  }

  /** rehash's count loop: the number of slots holding a key. */
  method CountLive<V>(a: array<HashEntry<V>>) returns (n: nat)
    ensures n == |Live(a[..])|
  {
    n := 0;
    for i := 0 to a.Length
      invariant n == |Live(a[..i])|
    {
      assert a[..i + 1][..i] == a[..i];
      if a[i].key.Bytes? {
        n := n + 1;
      }
    }
    assert a[..a.Length] == a[..];
  }

  /** rehash's size loop: the capacity doubled until nkeys fill less than LOW_WATERMARK percent of it. */
  method GrowCapacity(capacity: nat, nkeys: nat) returns (cap: nat)
    requires capacity > 0
    ensures cap == NewCapacity(capacity, nkeys)
  {
    cap := capacity;
    while (nkeys * 100) / cap >= LOW_WATERMARK
      invariant cap >= capacity && NewCapacity(cap, nkeys) == NewCapacity(capacity, nkeys)
      decreases 2 * nkeys + 1 - cap
    {
      DivAtLeast(nkeys * 100, cap, LOW_WATERMARK);
      cap := cap * 2;
    }
  }

  /** Buckets that need a rehash while used * 100 fits an int are below 2^30, so doubling them stays in range. */
  lemma CapacityRoom(log: nat, used: nat)
    requires used * 100 <= INT_MAX && NeedsRehash(used, Pow2(log))
    ensures log < 30
  {
    DivAtLeast(used * 100, Pow2(log), HIGH_WATERMARK);
    if log >= 30 {
      Pow2Monotone(30, log);
      Pow2Of30();
    }
  }

  class HashMap<V> {
    /** NULL until the first put. */
    var buckets: array?<HashEntry<V>>
    var capacity: nat
    var used: nat
    /** The capacity is 2^log. */
    ghost var log: nat

    /** The buckets as a sequence; no buckets is the empty sequence. */
    function Table(): seq<HashEntry<V>>
      reads this, buckets
    {
      if buckets == null then [] else buckets[..]
    }

    /** What the map holds: each stored key and its value. */
    function Contents(): map<seq<bv8>, Option<V>>
      reads this, buckets
    {
      HashTable.Contents(Table())
    }

    /**
     * No buckets, capacity and used 0; or buckets of the capacity, a power
     * of two from INIT_SIZE to 2^30, holding `used` non-NULL slots and
     * keeping the table invariant.
     */
    ghost predicate Valid()
      reads this, buckets
    {
      (buckets == null ==> capacity == 0 && used == 0) &&
      (buckets != null ==>
        capacity == buckets.Length && capacity == Pow2(log) && log <= 30 &&
        used == CountUsed(buckets[..]) && TableInv(buckets[..]))
    }

    /** 1 while the next put rehashes first, else 0: what bounds the calls between put and rehash. */
    function Pending(): nat
      reads this
    {
      if buckets != null && capacity > 0 && NeedsRehash(used, capacity) then 1 else 0
    }

    /** `HashMap map = {}`: no buckets, nothing stored. */
    constructor ()
      ensures Valid() && buckets == null && Contents() == map[]
    {
      buckets := null;
      capacity := 0;
      used := 0;
      log := 0;
    }

    /** Valid buckets of a capacity of 2^(log+1) still divide 2^64. */
    lemma DoubleDivides()
      requires Valid() && buckets != null
      ensures U64 % (2 * |Table()|) == 0
    {
      Pow2Divides(log + 1);
    }

    /** get_entry: the slot holding the key, found by the probe from its hash. */
    method GetEntry(key: seq<bv8>) returns (r: Option<nat>)
      requires Valid()
      ensures r == Find(Table(), key)
    {
      if buckets == null {
        return None;
      }
      var hash := FnvHash(key);
      ghost var t := buckets[..];
      ghost var z := NullSlot(t);
      ProbeDist(hash, z, capacity);
      var i := 0;
      while i < capacity
        invariant i <= Dist(hash, z, capacity)
        invariant FindFrom(t, key, hash, i) == FindFrom(t, key, hash, 0)
      {
        var slot := Probe(hash, i, capacity);
        var ent := buckets[slot];
        if Matches(ent, key) {
          return Some(slot);
        }
        if ent.key == Null {
          return None;
        }
        i := i + 1;
      }
      // unreachable(): the probe meets the NULL slot z at turn Dist(hash, z, capacity)
      assert false;
    }

    /** hashmap_get2: the value of the key's slot, or NULL. */
    method Get2(key: seq<bv8>) returns (v: Option<V>)
      requires Valid()
      ensures v == HashTable.Get(Table(), key)
      ensures v == if key in Contents() then Contents()[key] else None
    {
      var ent := GetEntry(key);
      v := if ent.Some? then buckets[ent.value].val else None;
      GetContents(Table(), key);
    }

    /** hashmap_get: hashmap_get2 on the key up to its NUL byte. */
    method Get(key: seq<bv8>) returns (v: Option<V>)
      requires Valid() && 0 in key
      ensures v == if key[..Strlen(key)] in Contents() then Contents()[key[..Strlen(key)]] else None
    {
      v := Get2(key[..Strlen(key)]);
    }

    /**
     * rehash: the live entries put into fresh buckets, the capacity doubled
     * until they fill less than LOW_WATERMARK percent of it.
     */
    method Rehash()
      requires Valid() && buckets != null && NeedsRehash(used, capacity) && used * 100 <= INT_MAX
      modifies this
      ensures Valid() && buckets != null && fresh(buckets)
      ensures Table() == Rehashed(old(Table()))
      ensures Contents() == old(Contents()) && NoTombstones(Table())
      ensures used == |Live(old(Table()))|
      ensures capacity == old(capacity) || capacity == 2 * old(capacity)
      decreases 1, 0
    {
      ghost var t := buckets[..];
      var nkeys := CountLive(buckets);
      DoubleDivides();
      LiveUsed(t);
      NewCapacityOnce(capacity, nkeys);
      var cap := GrowCapacity(capacity, nkeys);
      ghost var lg := log;
      if cap != capacity {
        CapacityRoom(log, used);
        lg := log + 1;
      }
      Pow2Divides(lg);

      var map2 := new HashMap<V>();
      map2.buckets := new HashEntry<V>[cap](_ => HashEntry(Null, None));
      map2.capacity := cap;
      map2.log := lg;
      assert map2.buckets[..] == EmptyTable<V>(cap);
      EmptyInv<V>(cap);
      map2.CopyAll(buckets, nkeys);
      RehashInv(t);
      ghost var r := map2.buckets[..];
      assert r == Rehashed(t);

      buckets := map2.buckets;
      capacity := map2.capacity;
      used := map2.used;
      log := map2.log;
      assert buckets[..] == r;
    }

    /** rehash's copy loop, on the new map: every live entry of the old buckets put into it. */
    method CopyAll(a: array<HashEntry<V>>, nkeys: nat)
      requires Valid() && buckets != null && a != buckets && Table() == EmptyTable(capacity)
      requires DistinctKeys(a[..]) && nkeys == |Live(a[..])| && nkeys * 100 <= INT_MAX
      requires nkeys < capacity && (nkeys * 100) / capacity < LOW_WATERMARK
      modifies this, buckets
      ensures Valid() && buckets == old(buckets) && capacity == old(capacity) && log == old(log)
      ensures Table() == InsertAll(EmptyTable(capacity), Live(a[..])) && used == nkeys
      decreases 0, 4
    {
      ghost var t := a[..];
      ghost var empty := Table();
      assert t[..0] == [];
      for i := 0 to a.Length
        invariant Valid() && buckets == old(buckets) && capacity == old(capacity) && log == old(log)
        invariant Table() == InsertAll(empty, Live(t[..i]))
      {
        CopyTurn(t, empty, nkeys, i, a[i]);
      }
      assert t[..a.Length] == t;
      RehashPrefix(t, capacity, a.Length);
    }

    /** A turn of rehash's copy loop, on the new map: slot i's entry, when live, is put into it. */
    method CopyTurn(ghost t: seq<HashEntry<V>>, ghost empty: seq<HashEntry<V>>, nkeys: nat, i: nat, ent: HashEntry<V>)
      requires i < |t| && ent == t[i] && DistinctKeys(t) && nkeys == |Live(t)| && nkeys * 100 <= INT_MAX
      requires Valid() && buckets != null && empty == EmptyTable(capacity) && nkeys < capacity
      requires (nkeys * 100) / capacity < LOW_WATERMARK
      requires Table() == InsertAll(empty, Live(t[..i]))
      modifies this, buckets
      ensures Valid() && Table() == InsertAll(empty, Live(t[..i + 1]))
      ensures buckets == old(buckets) && capacity == old(capacity) && log == old(log)
      decreases 0, 3
    {
      RehashStep(t, empty, i);
      LivePrefix(t, i);
      RehashPrefix(t, capacity, i);
      if ent.key.Bytes? {
        RehashRoom(used, nkeys, capacity);
        PutNoRehash(Table(), ent.key.s, ent.val);
        Put2(ent.key.s, ent.val);
      }
    }

    /**
     * get_or_insert_entry: allocate INIT_SIZE buckets or rehash if due, then
     * claim the first slot on the probe that holds the key, is a TOMBSTONE
     * or is NULL; only a NULL slot adds to `used`.
     */
    method GetOrInsertEntry(key: seq<bv8>) returns (slot: nat)
      requires Valid() && used * 100 <= INT_MAX
      requires buckets != null && !NeedsRehash(used, capacity) ==> !Shadowed(Table(), key)
      modifies this, buckets
      ensures Valid() && buckets != null && (buckets == old(buckets) || fresh(buckets))
      ensures old(buckets) != null && !old(NeedsRehash(used, capacity)) ==>
        buckets == old(buckets) && capacity == old(capacity) && log == old(log)
      ensures Slot(Prepared(old(Table())), key) == Some(slot)
      ensures Table() == Prepared(old(Table()))[slot := Claim(Prepared(old(Table()))[slot], key)]
      decreases Pending(), 1
    {
      ghost var t0 := Table();
      if buckets != null {
        DoubleDivides();
      }
      PreparedInv(t0);
      if buckets == null {
        buckets := new HashEntry<V>[INIT_SIZE](_ => HashEntry(Null, None));
        capacity := INIT_SIZE;
        log := 4;
        assert buckets[..] == EmptyTable<V>(INIT_SIZE);
        Pow2Divides(4);
        EmptyInv<V>(INIT_SIZE);
      } else if (used * 100) / capacity >= HIGH_WATERMARK {
        Rehash();
      }
      ghost var t := buckets[..];
      assert t == Prepared(t0);
      ghost var j := ClaimInv(t, key);
      slot := ClaimSlot(key, j);
      assert buckets[..] == t[j := Claim(t[j], key)];
    }

    /**
     * get_or_insert_entry's probe: the first slot on it that holds the key,
     * is a TOMBSTONE or is NULL (slot j) gets the key; only a NULL slot adds
     * to `used`.
     */
    method ClaimSlot(key: seq<bv8>, ghost j: nat) returns (slot: nat)
      requires buckets != null && capacity == buckets.Length > 0 && Slot(buckets[..], key) == Some(j)
      modifies this`used, buckets
      ensures slot == j && buckets[..] == old(buckets[..])[j := Claim(old(buckets[j]), key)]
      ensures used == old(used) + if old(buckets[j]).key == Null then 1 else 0
    {
      ghost var t := buckets[..];
      var hash := FnvHash(key);
      var i := 0;
      while i < capacity
        invariant buckets[..] == t
        invariant SlotFrom(t, key, hash, i) == Some(j)
      {
        slot := Probe(hash, i, capacity);
        var ent := buckets[slot];
        if Matches(ent, key) {
          assert t[j := Claim(t[j], key)] == t;
          return;
        }
        if ent.key == Tombstone {
          buckets[slot] := ent.(key := Bytes(key));
          return;
        }
        if ent.key == Null {
          buckets[slot] := ent.(key := Bytes(key));
          used := used + 1;
          return;
        }
        i := i + 1;
      }
      // unreachable(): the probe stops at slot j before it runs out of turns
      assert false;
    }

    /**
     * hashmap_put2: the key now maps to the value and every other key keeps
     * its own; overwriting a stored key without a rehash leaves `used` as it
     * was. The key must not be shadowed by a TOMBSTONE earlier on its probe.
     */
    method Put2(key: seq<bv8>, v: Option<V>)
      requires Valid() && used * 100 <= INT_MAX
      requires buckets != null && !NeedsRehash(used, capacity) ==> !Shadowed(Table(), key)
      modifies this, buckets
      ensures Valid() && Table() == HashTable.Put(old(Table()), key, v)
      ensures Contents() == old(Contents())[key := v]
      ensures old(buckets) == null ==> capacity == INIT_SIZE
      ensures old(buckets) != null && !old(NeedsRehash(used, capacity)) ==>
        buckets == old(buckets) && capacity == old(capacity) && log == old(log)
      ensures old(buckets) != null && !old(NeedsRehash(used, capacity)) && key in old(Contents()) ==> used == old(used)
      decreases Pending(), 2
    {
      ghost var t0 := Table();
      if buckets != null {
        DoubleDivides();
      }
      PutInv(t0, key, v);
      var slot := GetOrInsertEntry(key);
      ghost var c := buckets[..];
      PutAt(t0, key, v, slot);
      ghost var t1 := c[slot := c[slot].(val := v)];
      assert t1 == HashTable.Put(t0, key, v);
      CountUsedUpdate(c, slot, c[slot].(val := v));
      buckets[slot] := buckets[slot].(val := v);
      assert buckets[..] == t1;
    }

    /** hashmap_put: hashmap_put2 on the key up to its NUL byte. */
    method Put(key: seq<bv8>, v: Option<V>)
      requires Valid() && used * 100 <= INT_MAX && 0 in key
      requires buckets != null && !NeedsRehash(used, capacity) ==> !Shadowed(Table(), key[..Strlen(key)])
      modifies this, buckets
      ensures Valid() && Contents() == old(Contents())[key[..Strlen(key)] := v]
    {
      Put2(key[..Strlen(key)], v);
    }

    /**
     * hashmap_delete2: the key's slot becomes a TOMBSTONE, so the key is
     * gone, every other key keeps its value and `used` is unchanged;
     * deleting an absent key changes nothing.
     */
    method Delete2(key: seq<bv8>)
      requires Valid()
      modifies buckets
      ensures Valid() && Table() == HashTable.Delete(old(Table()), key)
      ensures Contents() == old(Contents()) - {key}
      ensures key !in old(Contents()) ==> Table() == old(Table())
    {
      ghost var t0 := Table();
      var ent := GetEntry(key);
      if ent.Some? {
        buckets[ent.value] := buckets[ent.value].(key := Tombstone);
      }
      if buckets != null {
        DeleteInv(t0, key);
      }
    }

    /** hashmap_delete: hashmap_delete2 on the key up to its NUL byte. */
    method Delete(key: seq<bv8>)
      requires Valid() && 0 in key
      modifies buckets
      ensures Valid() && Contents() == old(Contents()) - {key[..Strlen(key)]}
    {
      Delete2(key[..Strlen(key)]);
    }
  }
}
