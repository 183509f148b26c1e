/**
 The plain meaning of the synthesized Map class: a sequence of entries with distinct keys in
 insertion order. Overwriting keeps an entry's place; re-inserting a removed key appends it.
*/
module OrderedMaps {
  import opened Options

  type Entries<K, V> = seq<(K, V)>

  function Get<K(==), V>(m: Entries<K, V>, key: K): Option<V> {
    if m == [] then None
    else
      var last := m[|m| - 1];
      if last.0 == key then Some(last.1) else Get(m[..|m| - 1], key)
  }

  function Replace<K(==), V>(m: Entries<K, V>, key: K, value: V): Entries<K, V> {
    if m == [] then []
    else
      var last := m[|m| - 1];
      Replace(m[..|m| - 1], key, value) + [if last.0 == key then (key, value) else last]
  }

  function Put<K(==), V>(m: Entries<K, V>, key: K, value: V): Entries<K, V> {
    if Get(m, key).Some? then Replace(m, key, value) else m + [(key, value)]
  }

  function Delete<K(==), V>(m: Entries<K, V>, key: K): Entries<K, V> {
    if m == [] then []
    else
      var last := m[|m| - 1];
      Delete(m[..|m| - 1], key) + (if last.0 == key then [] else [last])
  }

  function Keys<K, V>(m: Entries<K, V>): (ks: seq<K>)
    ensures |ks| == |m|
  {
    seq(|m|, i requires 0 <= i < |m| => m[i].0)
  }

  function Values<K, V>(m: Entries<K, V>): (vs: seq<V>)
    ensures |vs| == |m|
  {
    seq(|m|, i requires 0 <= i < |m| => m[i].1)
  }

  ghost predicate Distinct<K, V>(m: Entries<K, V>) {
    forall i, j :: 0 <= i < j < |m| ==> m[i].0 != m[j].0
  }

  // ---- the laws of an insertion-ordered map ----

  lemma {:induction false} GetIsMembership<K, V>(m: Entries<K, V>, key: K)
    ensures Get(m, key).Some? <==> key in Keys(m)
    ensures Get(m, key).Some? ==> (key, Get(m, key).value) in m
    decreases |m|
  {
    if m != [] {
      var init := m[..|m| - 1];
      GetIsMembership(init, key);
      assert Keys(m) == Keys(init) + [m[|m| - 1].0];
      assert m == init + [m[|m| - 1]];
    }
  }

  lemma {:induction false} GetAfterReplace<K, V>(m: Entries<K, V>, key: K, value: V, other: K)
    ensures Get(Replace(m, key, value), other)
            == if other == key && Get(m, key).Some? then Some(value) else Get(m, other)
    ensures Keys(Replace(m, key, value)) == Keys(m)
    decreases |m|
  {
    if m != [] {
      var init, last := m[..|m| - 1], m[|m| - 1];
      GetAfterReplace(init, key, value, other);
      var r := Replace(m, key, value);
      assert r[..|r| - 1] == Replace(init, key, value);
      assert Keys(m) == Keys(init) + [last.0];
      assert Keys(r) == Keys(Replace(init, key, value)) + [last.0];
    }
  }

  /** Reading back what was put, and everything else unchanged; a new key goes to the end. */
  lemma GetAfterPut<K, V>(m: Entries<K, V>, key: K, value: V, other: K)
    ensures Get(Put(m, key, value), other) == if other == key then Some(value) else Get(m, other)
    ensures Keys(Put(m, key, value)) == if key in Keys(m) then Keys(m) else Keys(m) + [key]
  {
    GetIsMembership(m, key);
    if Get(m, key).Some? {
      GetAfterReplace(m, key, value, other);
    } else {
      var r := m + [(key, value)];
      assert r[..|r| - 1] == m;
      assert Keys(r) == Keys(m) + [key];
    }
  }

  lemma {:induction false} GetAfterDelete<K, V>(m: Entries<K, V>, key: K, other: K)
    ensures Get(Delete(m, key), other) == if other == key then None else Get(m, other)
    decreases |m|
  {
    if m != [] {
      var init, last := m[..|m| - 1], m[|m| - 1];
      GetAfterDelete(init, key, other);
      if last.0 != key {
        var r := Delete(m, key);
        assert r[..|r| - 1] == Delete(init, key);
      } else {
        assert Delete(m, key) == Delete(init, key);
      }
    }
  }

  /** Deleting keeps the order of the remaining entries and only drops the key's own. */
  lemma {:induction false} DeleteSplits<K, V>(m: Entries<K, V>, key: K, i: nat)
    requires Distinct(m) && i < |m| && m[i].0 == key
    ensures Delete(m, key) == m[..i] + m[i + 1..]
    decreases |m|
  {
    var init, last := m[..|m| - 1], m[|m| - 1];
    if i == |m| - 1 {
      DeleteAbsent(init, key);
      assert m[i + 1..] == [];
    } else {
      DeleteSplits(init, key, i);
      assert init[..i] + init[i + 1..] + [last] == m[..i] + m[i + 1..];
    }
  }

  lemma {:induction false} DeleteAbsent<K, V>(m: Entries<K, V>, key: K)
    requires forall i :: 0 <= i < |m| ==> m[i].0 != key
    ensures Delete(m, key) == m
    decreases |m|
  {
    if m != [] {
      DeleteAbsent(m[..|m| - 1], key);
      assert m == m[..|m| - 1] + [m[|m| - 1]];
    }
  }
}
