/**
 The synthesized Map<K, V> class: parallel entry lists, an open-addressing slot table over
 them, and a cache of the last lookup that lets a following .set skip the probe.
*/
module HashMaps {
  import opened Arithmetic
  import opened Bits
  import opened Options
  import opened OrderedMaps
  import opened ProbeTables

  // ---- the entries that are still live ----

  ghost function Live<K, V>(keys: seq<K>, values: seq<V>, active: seq<bool>): (m: Entries<K, V>)
    requires |keys| == |values| == |active|
    ensures |m| == Trues(active)
  {
    if keys == [] then []
    else
      var n := |keys| - 1;
      Live(keys[..n], values[..n], active[..n]) + (if active[n] then [(keys[n], values[n])] else [])
  }

  ghost predicate DistinctKeys<K>(keys: seq<K>, active: seq<bool>)
    requires |keys| == |active|
  {
    forall i, j :: 0 <= i < j < |keys| && active[i] && active[j] ==> keys[i] != keys[j]
  }

  lemma {:induction false} LiveHas<K, V>(keys: seq<K>, values: seq<V>, active: seq<bool>, key: K)
    requires |keys| == |values| == |active|
    ensures Get(Live(keys, values, active), key).Some? <==> exists i :: 0 <= i < |keys| && active[i] && keys[i] == key
    decreases |keys|
  {
    if keys != [] {
      var n := |keys| - 1;
      var m, init := Live(keys, values, active), Live(keys[..n], values[..n], active[..n]);
      LiveHas(keys[..n], values[..n], active[..n], key);
      if active[n] { assert m[..|m| - 1] == init; } else { assert m == init; }
    }
  }

  lemma {:induction false} LiveGet<K, V>(keys: seq<K>, values: seq<V>, active: seq<bool>, i: nat)
    requires |keys| == |values| == |active| && DistinctKeys(keys, active) && i < |keys| && active[i]
    ensures Get(Live(keys, values, active), keys[i]) == Some(values[i])
    decreases |keys|
  {
    var n := |keys| - 1;
    var m, init := Live(keys, values, active), Live(keys[..n], values[..n], active[..n]);
    if active[n] { assert m[..|m| - 1] == init; } else { assert m == init; }
    if i < n { LiveGet(keys[..n], values[..n], active[..n], i); }
  }

  /** Overwriting the value of a live entry in place. */
  lemma {:induction false} LiveReplace<K, V>(keys: seq<K>, values: seq<V>, active: seq<bool>, i: nat, value: V)
    requires |keys| == |values| == |active| && DistinctKeys(keys, active) && i < |keys| && active[i]
    ensures Live(keys, values[i := value], active) == Replace(Live(keys, values, active), keys[i], value)
    decreases |keys|
  {
    var n := |keys| - 1;
    var m, init := Live(keys, values, active), Live(keys[..n], values[..n], active[..n]);
    if active[n] { assert m[..|m| - 1] == init; } else { assert m == init; }
    if i == n {
      assert values[i := value][..n] == values[..n];
      ReplaceAbsent(keys[..n], values[..n], active[..n], keys[n], value);
    } else {
      assert values[i := value][..n] == values[..n][i := value];
      LiveReplace(keys[..n], values[..n], active[..n], i, value);
    }
  }

  lemma {:induction false} ReplaceAbsent<K, V>(keys: seq<K>, values: seq<V>, active: seq<bool>, key: K, value: V)
    requires |keys| == |values| == |active|
    requires forall i :: 0 <= i < |keys| && active[i] ==> keys[i] != key
    ensures var m := Live(keys, values, active); Replace(m, key, value) == m && Delete(m, key) == m
    decreases |keys|
  {
    if keys != [] {
      var n := |keys| - 1;
      var m, init := Live(keys, values, active), Live(keys[..n], values[..n], active[..n]);
      ReplaceAbsent(keys[..n], values[..n], active[..n], key, value);
      if active[n] { assert m[..|m| - 1] == init; } else { assert m == init; }
    }
  }

  lemma {:induction false} LiveDelete<K, V>(keys: seq<K>, values: seq<V>, active: seq<bool>, i: nat)
    requires |keys| == |values| == |active| && DistinctKeys(keys, active) && i < |keys| && active[i]
    ensures Live(keys, values, active[i := false]) == Delete(Live(keys, values, active), keys[i])
    decreases |keys|
  {
    var n := |keys| - 1;
    var m, init := Live(keys, values, active), Live(keys[..n], values[..n], active[..n]);
    if active[n] { assert m[..|m| - 1] == init; } else { assert m == init; }
    if i == n {
      assert active[i := false][..n] == active[..n];
      ReplaceAbsent(keys[..n], values[..n], active[..n], keys[n], values[n]);
    } else {
      assert active[i := false][..n] == active[..n][i := false];
      LiveDelete(keys[..n], values[..n], active[..n], i);
    }
  }

  lemma LiveAppend<K, V>(keys: seq<K>, values: seq<V>, active: seq<bool>, key: K, value: V)
    requires |keys| == |values| == |active|
    ensures Live(keys + [key], values + [value], active + [true]) == Live(keys, values, active) + [(key, value)]
  {
    var n := |keys|;
    assert (keys + [key])[..n] == keys && (values + [value])[..n] == values && (active + [true])[..n] == active;
  }

  /** Without dead entries the lists are the map. */
  lemma {:induction false} LiveWithoutDead<K, V>(keys: seq<K>, values: seq<V>, active: seq<bool>)
    requires |keys| == |values| == |active| && Trues(active) == |active|
    ensures Keys(Live(keys, values, active)) == keys && Values(Live(keys, values, active)) == values
    decreases |keys|
  {
    if keys != [] {
      var n := |keys| - 1;
      var m, init := Live(keys, values, active), Live(keys[..n], values[..n], active[..n]);
      LiveWithoutDead(keys[..n], values[..n], active[..n]);
      assert m == init + [(keys[n], values[n])];
      assert Keys(m) == Keys(init) + [keys[n]] && Values(m) == Values(init) + [values[n]];
      assert keys == keys[..n] + [keys[n]] && values == values[..n] + [values[n]];
    }
  }

  /** Copying the live entries of a prefix, one more entry. */
  lemma LivePrefix<K, V>(keys: seq<K>, values: seq<V>, active: seq<bool>, i: nat)
    requires |keys| == |values| == |active| && i < |keys|
    ensures Live(keys[..i + 1], values[..i + 1], active[..i + 1])
            == Live(keys[..i], values[..i], active[..i]) + (if active[i] then [(keys[i], values[i])] else [])
  {
    assert keys[..i + 1][..i] == keys[..i] && values[..i + 1][..i] == values[..i] && active[..i + 1][..i] == active[..i];
  }

  ghost predicate Absent<K>(keys: seq<K>, active: seq<bool>, key: K)
    requires |keys| == |active|
  {
    forall i :: 0 <= i < |keys| && active[i] ==> keys[i] != key
  }

  class Map<K(==,!new), V> {
    const hashing: K -> nat
    var keys: seq<K>
    var values: seq<V>
    var hashes: seq<nat>
    var active: seq<bool>
    var slots: array<int>
    var size: int
    var tombstones: int
    var emptySlot: int
    var lastIndex: int
    var lastHash: int
    var lastSlot: int
    var lastKey: seq<K>
    var version: int
    var lastVersion: int
    ghost var steps: seq<nat>     // probes from home to each live entry's slot
    ghost var exponent: nat       // the table has 2^exponent slots

    ghost predicate Lists()
      reads this`keys, this`values, this`hashes, this`active, this`steps, this`size, this`version
    {
      && |keys| == |values| == |hashes| == |active| == |steps|
      && (forall i :: 0 <= i < |keys| ==> hashes[i] == hashing(keys[i]))
      && DistinctKeys(keys, active)
      && size == Trues(active)
      && version >= 0
    }

    ghost predicate Table()
      reads this`slots, slots, this`exponent, this`hashes, this`active, this`steps, this`tombstones
    {
      && slots.Length == Pow(2, exponent) >= 8
      && Indexes(slots[..], hashes, active, steps)
      && tombstones == Tombstones(slots[..])
    }

    /** A cache whose version is current describes an existing entry or a usable free slot. */
    ghost predicate Cache()
      requires Lists() && Table()
      reads this`keys, this`values, this`hashes, this`active, this`steps, this`size, this`version
      reads this`slots, slots, this`exponent, this`tombstones
      reads this`lastKey, this`lastVersion, this`lastIndex, this`lastHash, this`lastSlot
    {
      && |lastKey| <= 1
      && (lastVersion == version ==>
            if lastIndex >= 0 then lastIndex < |keys| && active[lastIndex]
            else
              && |lastKey| == 1 && lastHash == hashing(lastKey[0])
              && Absent(keys, active, lastKey[0])
              && Insertable(slots[..], lastHash, lastSlot))
    }

    ghost predicate Bounds()
      reads this`slots, this`size, this`tombstones, this`keys
    {
      && size <= slots.Length - slots.Length / 4
      && tombstones <= slots.Length / 4
      && |keys| - size <= (if size - 1 > 64 then size - 1 else 64)
    }

    ghost predicate Valid()
      reads this, slots
      ensures Valid() ==> |keys| == |values| == |active|
    {
      Lists() && Table() && Cache() && Bounds()
    }

    ghost function Entries(): Entries<K, V>
      requires |keys| == |values| == |active|
      reads this
    {
      Live(keys, values, active)
    }

    constructor (hashing: K -> nat)
      ensures Valid() && fresh(slots) && Entries() == [] && this.hashing == hashing
    {
      this.hashing := hashing;
      keys, values, hashes, active, lastKey := [], [], [], [], [];
      slots := new int[8](_ => EMPTY);
      size, tombstones, emptySlot, lastIndex, lastHash, lastSlot := 0, 0, -1, -1, -1, -1;
      version, lastVersion := 0, -1;
      steps, exponent := [], 3;
      new;
      Unused(slots[..], hashes, active, steps);
      NoneUsed(slots[..]);
      assert Pow(2, 3) == 8;
    }

    method SlotOf(key: K, hash: nat) returns (slot: int)
      requires Lists() && Table() && size < slots.Length && hash == hashing(key)
      modifies this`emptySlot
      ensures slot >= 0
              ==> slot < slots.Length && 0 <= slots[slot] < |keys| && active[slots[slot]] && keys[slots[slot]] == key
      ensures slot < 0 ==> slot == -1 && Absent(keys, active, key) && Insertable(slots[..], hash, emptySlot)
    {
      SlotsAreLive();
      hide Position, Indexes, Scanned, FirstTombstone, Insertable, Unbroken, Absent, DistinctKeys, Trues, Pow, Tombstones;
      var found, firstTombstone, scanned;
      ghost var firstStep;
      found, slot, firstTombstone, scanned, firstStep := Probe(key, hash);
      if found { return; }
      MissingKey(key, hash, scanned);
      FreeSlotFound(slots[..], hash, firstTombstone, firstStep, scanned);
      if scanned < slots.Length {
        emptySlot := if firstTombstone >= 0 then firstTombstone else slot;
      } else {
        SomeTombstone(hash, firstTombstone, firstStep);
        emptySlot := firstTombstone;
      }
      slot := -1;
    }

    /** The loop: until the key, a never-used slot, or a full round; it notes the first tombstone. */
    method Probe(key: K, hash: nat)
      returns (found: bool, slot: nat, firstTombstone: int, scanned: nat, ghost firstStep: nat)
      requires Lists() && Table() && SlotsInRange() && hash == hashing(key)
      ensures scanned <= slots.Length && slot == Position(hash, scanned, slots.Length) < slots.Length
      ensures found ==> 0 <= slots[slot] < |keys| && keys[slots[slot]] == key
      ensures !found ==> Scanned(slots[..], keys, key, hash, scanned) && Unbroken(slots[..], hash, scanned)
      ensures !found ==> FirstTombstone(slots[..], hash, firstTombstone, firstStep, scanned)
      ensures !found && scanned < slots.Length ==> slots[slot] == EMPTY
    {
      TableIsMasked();
      hide Table, Position, Scanned, FirstTombstone, Unbroken, Trues, Pow, And, HomeSlot, NextSlot, DistinctKeys;
      var capacity := slots.Length;
      var mask := capacity - 1;
      slot := HomeSlot(hash, mask, exponent);
      scanned := 0;
      firstTombstone := -1;
      firstStep := 0;
      found := false;
      ghost var s := slots[..];
      NothingScanned(s, keys, key, hash);
      while scanned < capacity
        invariant 0 <= scanned <= capacity && slot == Position(hash, scanned, capacity) < capacity
        invariant Scanned(s, keys, key, hash, scanned) && Unbroken(s, hash, scanned)
        invariant FirstTombstone(s, hash, firstTombstone, firstStep, scanned)
        modifies {}
      {
        var index := slots[slot];
        if index == EMPTY { break; }
        FirstTombstoneMore(s, hash, firstTombstone, firstStep, scanned);
        if index == TOMBSTONE && firstTombstone < 0 {
          firstTombstone := slot;
          firstStep := scanned;
        }
        if index >= 0 && hashes[index] == hash && keys[index] == key {
          found := true;
          break;
        }
        ScannedMore(s, keys, key, hash, scanned);
        slot := NextSlot(slot, hash, scanned, mask, exponent);
        scanned := scanned + 1;
      }
    }

    lemma TableIsMasked()
      requires Table()
      ensures slots.Length == Pow(2, exponent) >= 8
    {
      hide Indexes, Tombstones;
    }

    lemma MissingKey(key: K, hash: nat, n: nat)
      requires Lists() && Table() && hash == hashing(key) && SlotsInRange()
      requires Scanned(slots[..], keys, key, hash, n)
      requires n >= slots.Length || slots[..][Position(hash, n, slots.Length)] == EMPTY
      ensures Absent(keys, active, key)
    {
      hide Indexes, Scanned, Trues, Tombstones;
      ScanProvesAbsent(slots[..], hashes, active, steps, keys, key, hash, n);
    }

    /** A full round without a never-used slot meets a tombstone: there are fewer entries than slots. */
    lemma SomeTombstone(hash: nat, t: int, step: nat)
      requires Lists() && Table() && size < slots.Length && SlotsInRange()
      requires Unbroken(slots[..], hash, slots.Length) && FirstTombstone(slots[..], hash, t, step, slots.Length)
      ensures t >= 0
    {
      hide Position, Unbroken, Occupied, Trues, Tombstones;
      if t < 0 { FullRound(slots[..], hash); }
    }

    ghost predicate SlotsInRange()
      reads this`slots, slots, this`keys
    {
      slots.Length > 0 && forall p :: 0 <= p < slots.Length ==> TOMBSTONE <= slots[p] < |keys|
    }

    /** A slot is empty, erased, or holds a live entry. */
    lemma SlotsAreLive()
      requires Lists() && Table()
      ensures SlotsInRange()
      ensures forall p :: 0 <= p < slots.Length && slots[p] >= 0 ==> slots[p] < |keys| && active[slots[p]]
    {
    }

    method Find(key: K, hash: nat) returns (index: int)
      requires Lists() && Table() && size < slots.Length && hash == hashing(key)
      modifies this`emptySlot
      ensures index >= 0 ==> index < |keys| && active[index] && keys[index] == key
      ensures index < 0 ==> index == -1 && Absent(keys, active, key) && Insertable(slots[..], hash, emptySlot)
    {
      var slot := SlotOf(key, hash);
      if slot < 0 { return -1; }
      index := slots[slot];
    }

    /** Puts a listed but unplaced entry into a table without tombstones. */
    method Place(index: nat, ghost placed: seq<bool>)
      requires |keys| == |hashes| && index < |placed| && !placed[index]
      requires slots.Length == Pow(2, exponent) && Indexes(slots[..], hashes, placed, steps)
      requires Occupied(slots[..]) < slots.Length && TOMBSTONE !in slots[..]
      modifies this`steps, slots
      ensures Indexes(slots[..], hashes, placed[index := true], steps) && TOMBSTONE !in slots[..]
    {
      hide Position, Occupied, Trues, Pow;
      var capacity := slots.Length;
      var mask := capacity - 1;
      ghost var hash, s := hashes[index], slots[..];
      var slot := HomeSlot(hashes[index], mask, exponent);
      ghost var scanned := 0;
      while slots[slot] >= 0
        invariant 0 <= scanned < capacity && slot == Position(hash, scanned, capacity)
        invariant forall d: nat :: d < scanned ==> s[Position(hash, d, capacity)] >= 0
        modifies {}
        decreases capacity - scanned
      {
        if scanned + 1 == capacity { FullRound(s, hash); }
        slot := NextSlot(slot, hash, scanned, mask, exponent);
        scanned := scanned + 1;
      }
      assert Insertable(s, hash, slot) by { assert Unbroken(s, hash, scanned); }
      ghost var t := Insert(s, hashes, placed, steps, index, slot);
      slots[slot] := index;
      steps := steps[index := t];
      assert slots[..] == s[slot := index];
    }

    /** Rebuilds the table over the live entries; capacity is 2^e. */
    method Rehash(capacity: nat, ghost e: nat)
      requires Lists() && capacity == Pow(2, e) >= 8 && size < capacity
      modifies this`slots, this`tombstones, this`steps, this`exponent
      ensures fresh(slots) && slots.Length == capacity && exponent == e && Lists() && Table()
      ensures tombstones == 0
    {
      hide Occupied, Tombstones, Trues, Pow, Reachable, Insertable;
      slots := new int[capacity](_ => EMPTY);
      exponent := e;
      ghost var placed := seq(|keys|, _ => false);
      Unused(slots[..], hashes, placed, steps);
      NoneUsed(slots[..]);
      var index := 0;
      while index < |keys|
        invariant 0 <= index <= |keys| == |placed| && |steps| == |keys| && fresh(slots) && slots.Length == capacity
        invariant Indexes(slots[..], hashes, placed, steps) && TOMBSTONE !in slots[..]
        invariant forall i :: 0 <= i < |keys| ==> placed[i] == (i < index && active[i])
        modifies this`steps, slots
      {
        if active[index] {
          TruesMonotone(placed, active);
          Place(index, placed);
          placed := placed[index := true];
        }
        index := index + 1;
      }
      assert placed == active;
      NoTombstones(slots[..]);
      tombstones := 0;
    }

    /** Copies of the live entries, in order. */
    method LiveCopies() returns (newKeys: seq<K>, newValues: seq<V>, newHashes: seq<nat>, newActive: seq<bool>)
      requires Lists()
      ensures |newKeys| == |newValues| == |newHashes| == |newActive|
      ensures Live(newKeys, newValues, newActive) == Entries()
      ensures forall i :: 0 <= i < |newKeys| ==> newActive[i] && newHashes[i] == hashing(newKeys[i])
      ensures DistinctKeys(newKeys, newActive)
    {
      hide Trues, Live;
      newKeys, newValues, newHashes, newActive := [], [], [], [];
      LiveOfNothing(newKeys, newValues, newActive);
      LiveOfNothing(keys[..0], values[..0], active[..0]);
      var index := 0;
      while index < |keys|
        invariant 0 <= index <= |keys| && |newKeys| == |newValues| == |newHashes| == |newActive|
        invariant Live(newKeys, newValues, newActive) == Live(keys[..index], values[..index], active[..index])
        invariant forall i :: 0 <= i < |newKeys| ==> newActive[i] && newHashes[i] == hashing(newKeys[i])
        invariant DistinctKeys(newKeys, newActive)
        invariant forall i, j :: 0 <= i < |newKeys| && index <= j < |keys| && active[j] ==> newKeys[i] != keys[j]
      {
        LivePrefix(keys, values, active, index);
        if active[index] {
          LiveAppend(newKeys, newValues, newActive, keys[index], values[index]);
          newKeys := newKeys + [keys[index]];
          newValues := newValues + [values[index]];
          newHashes := newHashes + [hashes[index]];
          newActive := newActive + [true];
        }
        index := index + 1;
      }
      assert keys[..index] == keys && values[..index] == values && active[..index] == active;
    }

    /** Drops the dead entries and rebuilds the table. */
    method Compact()
      requires Lists() && Table() && size < slots.Length
      modifies this
      ensures Lists() && Table() && fresh(slots) && slots.Length == old(slots.Length) && tombstones == 0
      ensures Entries() == old(Entries()) && size == old(size) == |keys|
      ensures lastVersion == -1 && |lastKey| == |old(lastKey)|
    {
      hide Trues, Pow, Indexes, Live, Tombstones, DistinctKeys;
      DropDead();
      Rehash(slots.Length, exponent);
      version := version + 1;
      lastVersion := -1;
    }

    /** The entry lists without the dead entries. */
    method DropDead()
      requires Lists()
      modifies this`keys, this`values, this`hashes, this`active, this`steps
      ensures Lists() && Entries() == old(Entries()) && size == old(size) == |keys|
    {
      hide Trues, Live, DistinctKeys;
      var newKeys, newValues, newHashes, newActive := LiveCopies();
      AllTrue(newActive);
      keys, values, hashes, active := newKeys, newValues, newHashes, newActive;
      steps := seq(|keys|, _ => 0);
    }

    // ---- the public operations ----

    method Has(key: K) returns (found: bool)
      requires Valid()
      modifies this`emptySlot
      ensures Valid() && Entries() == old(Entries())
      ensures found <==> OrderedMaps.Get(Entries(), key).Some?
    {
      hide Live, Trues, Indexes, Tombstones, Pow;
      LiveHas(keys, values, active, key);
      var index := Find(key, hashing(key));
      found := index >= 0;
    }

    method Get(key: K) returns (value: Option<V>)
      requires Valid()
      modifies this
      ensures Valid() && slots == old(slots) && Entries() == old(Entries())
      ensures value == OrderedMaps.Get(Entries(), key)
    {
      hide Live, Trues, Indexes, Tombstones, Pow, Insertable, DistinctKeys, Cache, Bounds, Table;
      LiveHas(keys, values, active, key);
      HasRoom();
      var hash := hashing(key);
      var index := Find(key, hash);
      Remember(key, hash, index);
      if index >= 0 {
        LiveGet(keys, values, active, index);
        return Some(values[index]);
      }
      value := None;
    }

    lemma HasRoom()
      requires Valid()
      ensures size < slots.Length
    {
    }

    /** What a lookup leaves in the cache. */
    method Remember(key: K, hash: nat, index: int)
      requires Valid() && hash == hashing(key)
      requires index >= 0 ==> index < |keys| && active[index]
      requires index < 0 ==> Absent(keys, active, key) && Insertable(slots[..], hash, emptySlot)
      modifies this`lastHash, this`lastIndex, this`lastSlot, this`lastVersion, this`lastKey
      ensures Valid()
    {
      hide Lists, Table, Bounds, Insertable, Absent;
      lastHash := hash;
      lastIndex := index;
      lastSlot := emptySlot;
      lastVersion := version;
      if index < 0 { lastKey := if |lastKey| == 0 then lastKey + [key] else lastKey[0 := key]; }
    }

    /** Overwrites a live entry's value. */
    method Overwrite(index: nat, value: V)
      requires Valid() && index < |keys| && active[index]
      modifies this`values
      ensures Valid() && Entries() == Put(old(Entries()), keys[index], value)
    {
      hide Trues, Indexes, Tombstones, Pow, Insertable;
      LiveGet(keys, values, active, index);
      LiveReplace(keys, values, active, index, value);
      values := values[index := value];
    }

    /** Appends a new entry and indexes it, at the given free slot or by growing the table. */
    method Append(key: K, value: V, hash: nat, insertSlot: int)
      requires Valid() && hash == hashing(key) && Absent(keys, active, key)
      requires Insertable(slots[..], hash, insertSlot)
      modifies this, slots
      ensures Valid() && (slots == old(slots) || fresh(slots))
      ensures Entries() == old(Entries()) + [(key, value)]
    {
      hide Trues, Indexes, Tombstones, Pow, Insertable, Live, Occupied;
      hide DistinctKeys;
      ghost var marks := active + [false];
      var newIndex := AppendEntry(key, value, hash);
      var slotCount := slots.Length;
      if size > slotCount - slotCount / 4 {
        PowSucc(exponent);
        Rehash(slotCount * 2, exponent + 1);
      } else {
        Fill(insertSlot, newIndex, marks);
      }
      version := version + 1;
      lastVersion := -1;
      assert Lists() && Table() && Cache() && Bounds();
      hide Lists, Table, Cache, Bounds;
    }

    /** Appends to the entry lists; the table does not index the entry yet. */
    method AppendEntry(key: K, value: V, hash: nat) returns (newIndex: nat)
      requires Lists() && Table() && hash == hashing(key) && Absent(keys, active, key)
      modifies this`keys, this`values, this`hashes, this`steps, this`active, this`size
      ensures newIndex == |old(keys)| && |keys| == newIndex + 1 && size == old(size) + 1 && Lists()
      ensures hashes[newIndex] == hash
      ensures Entries() == old(Entries()) + [(key, value)]
      ensures Indexes(slots[..], hashes, old(active) + [false], steps)
      ensures active == (old(active) + [false])[newIndex := true]
    {
      hide Trues, Indexes, Live;
      LiveAppend(keys, values, active, key, value);
      TruesAppend(active, true);
      Extend(slots[..], hashes, active, steps, hash);
      newIndex := |keys|;
      keys := keys + [key];
      values := values + [value];
      hashes := hashes + [hash];
      steps := steps + [0];
      active := active + [true];
      size := size + 1;
      assert active == (old(active) + [false])[newIndex := true];
    }

    /** Writes an entry into a free slot, reusing a tombstone when it is one. */
    method Fill(slot: int, index: nat, ghost marks: seq<bool>)
      requires slots.Length > 0 && index < |marks| && !marks[index] && |hashes| == |marks| == |steps|
      requires Indexes(slots[..], hashes, marks, steps) && Insertable(slots[..], hashes[index], slot)
      requires tombstones == Tombstones(slots[..])
      modifies this`tombstones, this`steps, slots
      ensures Indexes(slots[..], hashes, marks[index := true], steps) && |steps| == |marks|
      ensures tombstones == Tombstones(slots[..]) <= old(tombstones)
    {
      hide Indexes, Tombstones, Occupied, Unbroken;
      ghost var s := slots[..];
      ghost var t := Insert(s, hashes, marks, steps, index, slot);
      CountsAfterUpdate(s, slot, index);
      if slots[slot] == TOMBSTONE { tombstones := tombstones - 1; }
      slots[slot] := index;
      steps := steps[index := t];
      assert slots[..] == s[slot := index];
    }

    method RememberHit(hash: nat, index: nat)
      requires Valid() && index < |keys| && active[index]
      modifies this`lastHash, this`lastIndex, this`lastVersion
      ensures Valid()
    {
      hide Trues, Indexes, Tombstones, Pow, Insertable, DistinctKeys;
      lastHash := hash;
      lastIndex := index;
      lastVersion := version;
    }

    method Set(key: K, value: V)
      requires Valid()
      modifies this, slots
      ensures Valid() && (slots == old(slots) || fresh(slots))
      ensures Entries() == Put(old(Entries()), key, value)
    {
      hide Trues, Indexes, Tombstones, Pow, Insertable, Live, Occupied, DistinctKeys;
      LiveHas(keys, values, active, key);
      if lastVersion == version && lastIndex >= 0 {
        var cached := lastIndex;
        if keys[cached] == key {
          Overwrite(cached, value);
          return;
        }
      }
      var hash, index, insertSlot;
      if lastVersion == version && lastIndex < 0 && |lastKey| == 1 && lastKey[0] == key {
        hash, index, insertSlot := lastHash, -1, lastSlot;
      } else {
        hash := hashing(key);
        index := Find(key, hash);
        insertSlot := emptySlot;
      }
      if index >= 0 {
        Overwrite(index, value);
        RememberHit(hash, index);
        return;
      }
      Append(key, value, hash, insertSlot);
    }

    /** Takes the entry in a slot out of the map, leaving a tombstone. */
    method EraseSlot(slot: nat)
      requires Lists() && Table() && slot < slots.Length && 0 <= slots[slot] < |keys| && active[slots[slot]]
      modifies this`active, this`size, this`tombstones, slots
      ensures Lists() && Table() && size == old(size) - 1 && tombstones == old(tombstones) + 1
      ensures Entries() == Delete(old(Entries()), old(keys[slots[slot]]))
    {
      hide Trues, Indexes, Tombstones, Pow, Live, Occupied;
      ghost var s := slots[..];
      var removedIndex := slots[slot];
      LiveDelete(keys, values, active, removedIndex);
      TruesAfterUpdate(active, removedIndex, false);
      Erase(s, hashes, active, steps, slot);
      CountsAfterUpdate(s, slot, TOMBSTONE);
      active := active[removedIndex := false];
      slots[slot] := TOMBSTONE;
      assert slots[..] == s[slot := TOMBSTONE];
      size := size - 1;
      tombstones := tombstones + 1;
    }

    method Remove(key: K) returns (removed: bool)
      requires Valid()
      modifies this, slots
      ensures Valid() && (slots == old(slots) || fresh(slots))
      ensures removed <==> OrderedMaps.Get(old(Entries()), key).Some?
      ensures Entries() == Delete(old(Entries()), key)
    {
      hide Trues, Indexes, Tombstones, Pow, Insertable, Live, Occupied, DistinctKeys;
      LiveHas(keys, values, active, key);
      var slot := SlotOf(key, hashing(key));
      if slot < 0 {
        DeleteMissing(keys, values, active, key);
        return false;
      }
      EraseSlot(slot);
      version := version + 1;
      lastVersion := -1;
      Shrink();
      removed := true;
    }

    /** Compacts when at least half of a long entry list is dead, else rebuilds a table with many tombstones. */
    method Shrink()
      requires Lists() && Table() && |lastKey| <= 1 && lastVersion == -1
      requires size < slots.Length - slots.Length / 4 && tombstones <= slots.Length / 4 + 1
      requires |keys| - size <= (if size > 64 then size + 1 else 65)
      modifies this
      ensures Valid() && Entries() == old(Entries()) && (slots == old(slots) || fresh(slots))
    {
      hide Trues, Indexes, Tombstones, Pow, Insertable, Live, DistinctKeys;
      var keyCount, slotCount := |keys|, slots.Length;
      if keyCount > 64 && size * 2 <= keyCount {
        Compact();
      } else if tombstones > slotCount / 4 {
        Rehash(slotCount, exponent);
      }
    }

    method Size() returns (n: nat)
      requires Valid()
      ensures n == |Entries()|
    {
      n := size;
    }

    method KeyList() returns (ks: seq<K>)
      requires Valid()
      modifies this
      ensures Valid() && (slots == old(slots) || fresh(slots))
      ensures Entries() == old(Entries()) && ks == OrderedMaps.Keys(Entries())
    {
      hide Trues, Indexes, Tombstones, Pow, Insertable, Live, Occupied;
      var count := |keys|;
      if size != count { Compact(); }
      LiveWithoutDead(keys, values, active);
      ks := keys;
    }

    method ValueList() returns (vs: seq<V>)
      requires Valid()
      modifies this
      ensures Valid() && (slots == old(slots) || fresh(slots))
      ensures Entries() == old(Entries()) && vs == OrderedMaps.Values(Entries())
    {
      hide Trues, Indexes, Tombstones, Pow, Insertable, Live, Occupied;
      var count := |values|;
      if size != count { Compact(); }
      LiveWithoutDead(keys, values, active);
      vs := values;
    }
  }

  lemma NothingScanned<K(!new)>(slots: seq<int>, keys: seq<K>, key: K, hash: nat)
    requires |slots| > 0 && forall s :: 0 <= s < |slots| ==> slots[s] < |keys|
    ensures Scanned(slots, keys, key, hash, 0) && Unbroken(slots, hash, 0) && FirstTombstone(slots, hash, -1, 0, 0)
  {
  }

  lemma DeleteMissing<K, V>(keys: seq<K>, values: seq<V>, active: seq<bool>, key: K)
    requires |keys| == |values| == |active| && Absent(keys, active, key)
    ensures var m := Live(keys, values, active); Delete(m, key) == m
  {
    if keys != [] { ReplaceAbsent(keys, values, active, key, values[0]); }
  }

  lemma LiveOfNothing<K, V>(keys: seq<K>, values: seq<V>, active: seq<bool>)
    requires keys == [] && values == [] && active == []
    ensures Live(keys, values, active) == []
  {
  }

  /** hash AND mask, with mask one less than the power of two that is the capacity. */
  function HomeSlot(hash: nat, mask: nat, ghost exponent: nat): (slot: nat)
    requires mask + 1 == Pow(2, exponent)
    ensures slot == Position(hash, 0, mask + 1)
  {
    AndMask(hash, exponent);
    And(hash, mask)
  }

  /** (slot + 1) AND mask. */
  function NextSlot(slot: nat, ghost hash: nat, ghost d: nat, mask: nat, ghost exponent: nat): (next: nat)
    requires mask + 1 == Pow(2, exponent) && slot == Position(hash, d, mask + 1)
    ensures next == Position(hash, d + 1, mask + 1)
  {
    AndMask(slot + 1, exponent);
    PositionStep(hash, d, mask + 1);
    And(slot + 1, mask)
  }
}
