/**
 The open-addressing index on plain sequences: a slot holds -1 (never used), -2 (a tombstone)
 or the number of an entry, and an entry is found by scanning from its hash's home slot.
*/
module ProbeTables {
  import opened Arithmetic

  const EMPTY: int := -1
  const TOMBSTONE: int := -2

  // ---- probe positions ----

  /** The slot d steps after the home slot of hash h. */
  function Position(h: nat, d: nat, capacity: nat): (p: nat)
    requires capacity > 0
    ensures p < capacity
  {
    (h + d) % capacity
  }

  lemma PositionStep(h: nat, d: nat, capacity: nat)
    requires capacity > 0
    ensures (Position(h, d, capacity) + 1) % capacity == Position(h, d + 1, capacity)
  {
    Wrap(h + d, capacity);
  }

  lemma Wrap(n: nat, capacity: nat)
    requires capacity > 0
    ensures (n % capacity + 1) % capacity == (n + 1) % capacity
  {
    var q, r := n / capacity, n % capacity;
    assert n == q * capacity + r;
    if r + 1 == capacity {
      DivUnique(n + 1, capacity, q + 1, 0);
      DivUnique(r + 1, capacity, 1, 0);
    } else {
      DivUnique(n + 1, capacity, q, r + 1);
      DivUnique(r + 1, capacity, 0, r + 1);
    }
  }

  /** Every slot is reached within one round. */
  lemma PositionCovers(h: nat, s: nat, capacity: nat) returns (d: nat)
    requires s < capacity
    ensures d < capacity && Position(h, d, capacity) == s
  {
    var q, home := h / capacity, h % capacity;
    assert h == capacity * q + home;
    if home <= s {
      d := s - home;
      DivUnique(h + d, capacity, q, s);
    } else {
      d := s + capacity - home;
      assert (q + 1) * capacity == q * capacity + capacity;
      DivUnique(h + d, capacity, q + 1, s);
    }
  }

  /** No never-used slot among the first t probes. */
  ghost predicate Unbroken(slots: seq<int>, h: nat, t: nat)
    requires |slots| > 0
  {
    forall d: nat :: d < t ==> slots[Position(h, d, |slots|)] != EMPTY
  }

  /** A slot where an entry with hash h may be put: free, and reached by an unbroken probe. */
  ghost predicate Insertable(slots: seq<int>, h: nat, s: int)
    requires |slots| > 0
  {
    && 0 <= s < |slots| && slots[s] < 0
    && exists t: nat :: t < |slots| && s == Position(h, t, |slots|) && Unbroken(slots, h, t)
  }

  // ---- counting ----

  ghost function Occupied(slots: seq<int>): (n: nat)
    ensures n <= |slots|
  {
    if slots == [] then 0 else Occupied(slots[..|slots| - 1]) + (if slots[|slots| - 1] >= 0 then 1 else 0)
  }

  ghost function Tombstones(slots: seq<int>): (n: nat)
    ensures n <= |slots|
  {
    if slots == [] then 0 else Tombstones(slots[..|slots| - 1]) + (if slots[|slots| - 1] == TOMBSTONE then 1 else 0)
  }

  ghost function Trues(flags: seq<bool>): (n: nat)
    ensures n <= |flags|
  {
    if flags == [] then 0 else Trues(flags[..|flags| - 1]) + (if flags[|flags| - 1] then 1 else 0)
  }

  lemma {:induction false} CountsAfterUpdate(slots: seq<int>, s: nat, v: int)
    requires s < |slots|
    ensures Occupied(slots[s := v]) + (if slots[s] >= 0 then 1 else 0) == Occupied(slots) + (if v >= 0 then 1 else 0)
    ensures Tombstones(slots[s := v]) + (if slots[s] == TOMBSTONE then 1 else 0)
            == Tombstones(slots) + (if v == TOMBSTONE then 1 else 0)
    decreases |slots|
  {
    var n := |slots| - 1;
    var after := slots[s := v];
    if s == n {
      assert after[..n] == slots[..n];
    } else {
      CountsAfterUpdate(slots[..n], s, v);
      assert after[..n] == slots[..n][s := v];
    }
  }

  lemma {:induction false} TruesAfterUpdate(flags: seq<bool>, i: nat, b: bool)
    requires i < |flags|
    ensures Trues(flags[i := b]) + (if flags[i] then 1 else 0) == Trues(flags) + (if b then 1 else 0)
    decreases |flags|
  {
    var n := |flags| - 1;
    var after := flags[i := b];
    if i == n {
      assert after[..n] == flags[..n];
    } else {
      TruesAfterUpdate(flags[..n], i, b);
      assert after[..n] == flags[..n][i := b];
    }
  }

  lemma TruesAppend(flags: seq<bool>, b: bool)
    ensures Trues(flags + [b]) == Trues(flags) + (if b then 1 else 0)
  {
    assert (flags + [b])[..|flags|] == flags;
  }

  lemma {:induction false} AllOccupied(slots: seq<int>)
    requires forall s :: 0 <= s < |slots| ==> slots[s] >= 0
    ensures Occupied(slots) == |slots|
    decreases |slots|
  {
    if slots != [] { AllOccupied(slots[..|slots| - 1]); }
  }

  lemma {:induction false} NoneUsed(slots: seq<int>)
    requires forall s :: 0 <= s < |slots| ==> slots[s] == EMPTY
    ensures Occupied(slots) == 0 && Tombstones(slots) == 0
    decreases |slots|
  {
    if slots != [] { NoneUsed(slots[..|slots| - 1]); }
  }

  lemma {:induction false} NoneTrue(flags: seq<bool>)
    requires forall i :: 0 <= i < |flags| ==> !flags[i]
    ensures Trues(flags) == 0
    decreases |flags|
  {
    if flags != [] { NoneTrue(flags[..|flags| - 1]); }
  }

  lemma {:induction false} AllTrue(flags: seq<bool>)
    requires forall i :: 0 <= i < |flags| ==> flags[i]
    ensures Trues(flags) == |flags|
    decreases |flags|
  {
    if flags != [] { AllTrue(flags[..|flags| - 1]); }
  }

  lemma {:induction false} NoTombstones(slots: seq<int>)
    requires TOMBSTONE !in slots
    ensures Tombstones(slots) == 0
    decreases |slots|
  {
    if slots != [] { NoTombstones(slots[..|slots| - 1]); }
  }

  lemma {:induction false} TruesMonotone(some: seq<bool>, all: seq<bool>)
    requires |some| == |all| && forall i :: 0 <= i < |some| && some[i] ==> all[i]
    ensures Trues(some) <= Trues(all)
    decreases |some|
  {
    if some != [] { TruesMonotone(some[..|some| - 1], all[..|all| - 1]); }
  }

  // ---- the index invariant ----

  /** Entry i sits in its slot, steps[i] probes from home, with no gap before it. */
  ghost predicate Reachable(slots: seq<int>, hashes: seq<nat>, steps: seq<nat>, i: nat)
    requires |slots| > 0 && i < |hashes| == |steps|
  {
    && steps[i] < |slots|
    && slots[Position(hashes[i], steps[i], |slots|)] == i
    && Unbroken(slots, hashes[i], steps[i])
  }

  /** The table indexes exactly the entries marked in placed, each once and reachably. */
  ghost predicate Indexes(slots: seq<int>, hashes: seq<nat>, placed: seq<bool>, steps: seq<nat>) {
    && |slots| > 0 && |hashes| == |placed| == |steps|
    && (forall s :: 0 <= s < |slots| ==> TOMBSTONE <= slots[s] < |placed|)
    && (forall s :: 0 <= s < |slots| && slots[s] >= 0 ==> placed[slots[s]])
    && (forall s, t :: 0 <= s < t < |slots| && slots[s] >= 0 ==> slots[s] != slots[t])
    && (forall i :: 0 <= i < |placed| && placed[i] ==> Reachable(slots, hashes, steps, i))
    && Occupied(slots) == Trues(placed)
  }

  lemma UnbrokenAfterUpdate(slots: seq<int>, s: nat, v: int, h: nat, t: nat)
    requires s < |slots| && v != EMPTY && Unbroken(slots, h, t)
    ensures Unbroken(slots[s := v], h, t)
  {
  }

  /** Inserting an entry into an insertable slot. */
  lemma Insert(slots: seq<int>, hashes: seq<nat>, placed: seq<bool>, steps: seq<nat>, i: nat, s: nat)
    returns (t: nat)
    requires Indexes(slots, hashes, placed, steps) && i < |placed| && !placed[i]
    requires Insertable(slots, hashes[i], s)
    ensures Indexes(slots[s := i], hashes, placed[i := true], steps[i := t])
  {
    hide Position, Unbroken, Occupied, Trues;
    t :| t < |slots| && s == Position(hashes[i], t, |slots|) && Unbroken(slots, hashes[i], t);
    var after, marks, steps' := slots[s := i], placed[i := true], steps[i := t];
    CountsAfterUpdate(slots, s, i);
    TruesAfterUpdate(placed, i, true);
    forall j | 0 <= j < |marks| && marks[j]
      ensures Reachable(after, hashes, steps', j)
    {
      UnbrokenAfterUpdate(slots, s, i, hashes[j], steps'[j]);
      assert j != i ==> Reachable(slots, hashes, steps, j);
    }
  }

  /** Turning an entry's slot into a tombstone. */
  lemma Erase(slots: seq<int>, hashes: seq<nat>, placed: seq<bool>, steps: seq<nat>, s: nat)
    requires Indexes(slots, hashes, placed, steps) && s < |slots| && slots[s] >= 0
    ensures Indexes(slots[s := TOMBSTONE], hashes, placed[slots[s] := false], steps)
  {
    hide Position, Unbroken, Occupied, Trues;
    var after, i := slots[s := TOMBSTONE], slots[s];
    var marks := placed[i := false];
    CountsAfterUpdate(slots, s, TOMBSTONE);
    TruesAfterUpdate(placed, i, false);
    forall j | 0 <= j < |marks| && marks[j]
      ensures Reachable(after, hashes, steps, j)
    {
      assert Reachable(slots, hashes, steps, j);
      UnbrokenAfterUpdate(slots, s, TOMBSTONE, hashes[j], steps[j]);
    }
  }

  /** A new entry that is not in the table yet. */
  lemma Extend(slots: seq<int>, hashes: seq<nat>, placed: seq<bool>, steps: seq<nat>, h: nat)
    requires Indexes(slots, hashes, placed, steps)
    ensures Indexes(slots, hashes + [h], placed + [false], steps + [0])
  {
    hide Position, Unbroken, Occupied, Trues;
    TruesAppend(placed, false);
    forall i | 0 <= i < |placed| && placed[i]
      ensures Reachable(slots, hashes + [h], steps + [0], i)
    {
      assert Reachable(slots, hashes, steps, i);
    }
  }

  lemma Unused(slots: seq<int>, hashes: seq<nat>, placed: seq<bool>, steps: seq<nat>)
    requires |slots| > 0 && |hashes| == |placed| == |steps|
    requires forall s :: 0 <= s < |slots| ==> slots[s] == EMPTY
    requires forall i :: 0 <= i < |placed| ==> !placed[i]
    ensures Indexes(slots, hashes, placed, steps)
  {
    NoneUsed(slots);
    NoneTrue(placed);
  }

  /** A full round without a never-used slot has seen every entry and, unless all slots are occupied, a tombstone. */
  lemma FullRound(slots: seq<int>, h: nat)
    requires |slots| > 0 && Unbroken(slots, h, |slots|)
    requires forall s :: 0 <= s < |slots| ==> TOMBSTONE <= slots[s]
    requires forall d: nat :: d < |slots| ==> slots[Position(h, d, |slots|)] != TOMBSTONE
    ensures Occupied(slots) == |slots|
  {
    forall s | 0 <= s < |slots|
      ensures slots[s] >= 0
    {
      var d := PositionCovers(h, s, |slots|);
    }
    AllOccupied(slots);
  }

  /** What a scan of the first n probes has ruled out for a key. */
  ghost predicate Scanned<K(!new)>(slots: seq<int>, keys: seq<K>, key: K, h: nat, n: nat)
    requires |slots| > 0 && forall s :: 0 <= s < |slots| ==> slots[s] < |keys|
  {
    && Unbroken(slots, h, n)
    && forall d: nat :: d < n ==> var i := slots[Position(h, d, |slots|)]; i >= 0 ==> keys[i] != key
  }

  /** One more probe that did not find the key. */
  lemma ScannedMore<K(!new)>(slots: seq<int>, keys: seq<K>, key: K, h: nat, n: nat)
    requires |slots| > 0 && forall s :: 0 <= s < |slots| ==> slots[s] < |keys|
    requires Scanned(slots, keys, key, h, n)
    requires var i := slots[Position(h, n, |slots|)]; i != EMPTY && (i >= 0 ==> keys[i] != key)
    ensures Scanned(slots, keys, key, h, n + 1)
  {
    hide Position;
  }

  /** The first tombstone among n probes, at the given step; none is -1. */
  ghost predicate FirstTombstone(slots: seq<int>, h: nat, t: int, step: nat, n: nat)
    requires |slots| > 0
  {
    if t < 0 then t == -1 && forall d: nat :: d < n ==> slots[Position(h, d, |slots|)] != TOMBSTONE
    else step < n && t == Position(h, step, |slots|) && slots[t] == TOMBSTONE && Unbroken(slots, h, step)
  }

  lemma FirstTombstoneMore(slots: seq<int>, h: nat, t: int, step: nat, n: nat)
    requires |slots| > 0 && FirstTombstone(slots, h, t, step, n) && Unbroken(slots, h, n)
    ensures var p := Position(h, n, |slots|);
            if slots[p] == TOMBSTONE && t < 0 then FirstTombstone(slots, h, p, n, n + 1)
            else FirstTombstone(slots, h, t, step, n + 1)
  {
    hide Position, Unbroken;
  }

  /** Where a missing key may be put: the first tombstone, or else the never-used slot the probe met. */
  lemma FreeSlotFound(slots: seq<int>, h: nat, t: int, step: nat, n: nat)
    requires |slots| > 0 && FirstTombstone(slots, h, t, step, n) && Unbroken(slots, h, n) && n <= |slots|
    ensures t >= 0 ==> Insertable(slots, h, t)
    ensures n < |slots| && slots[Position(h, n, |slots|)] == EMPTY ==> Insertable(slots, h, Position(h, n, |slots|))
    ensures t < 0 ==> t == -1
  {
    hide Position, Unbroken;
  }

  /** A scan that met a never-used slot, or went all the way round, proves the key absent. */
  lemma ScanProvesAbsent<K(!new)>(slots: seq<int>, hashes: seq<nat>, placed: seq<bool>, steps: seq<nat>,
                                  keys: seq<K>, key: K, h: nat, n: nat)
    requires Indexes(slots, hashes, placed, steps) && |keys| == |placed|
    requires forall i :: 0 <= i < |keys| && keys[i] == key ==> hashes[i] == h
    requires Scanned(slots, keys, key, h, n)
    requires n >= |slots| || slots[Position(h, n, |slots|)] == EMPTY
    ensures forall i :: 0 <= i < |keys| && placed[i] ==> keys[i] != key
  {
    hide Position;
    forall i | 0 <= i < |keys| && placed[i]
      ensures keys[i] != key
    {
      assert Reachable(slots, hashes, steps, i);
    }
  }
}
