/** Whole histories of calls on a Map give the answers of the plain insertion-ordered map. */
module MapHistories {
  import opened Options
  import opened OrderedMaps
  import HashMaps

  datatype Call<K, V> =
    | Has(key: K) | Get(key: K) | Set(key: K, value: V) | Remove(key: K) | Size | KeyList | ValueList

  datatype Answer<K, V> =
    | Flag(flag: bool) | Found(found: Option<V>) | Done | Count(count: nat)
    | KeySeq(keys: seq<K>) | ValueSeq(values: seq<V>)

  function After<K(==), V>(m: Entries<K, V>, call: Call<K, V>): Entries<K, V> {
    match call
    case Set(key, value) => Put(m, key, value)
    case Remove(key) => Delete(m, key)
    case _ => m
  }

  function Reply<K(==), V>(m: Entries<K, V>, call: Call<K, V>): Answer<K, V> {
    match call
    case Has(key) => Flag(OrderedMaps.Get(m, key).Some?)
    case Get(key) => Found(OrderedMaps.Get(m, key))
    case Set(_, _) => Done
    case Remove(key) => Flag(OrderedMaps.Get(m, key).Some?)
    case Size => Count(|m|)
    case KeyList => KeySeq(OrderedMaps.Keys(m))
    case ValueList => ValueSeq(OrderedMaps.Values(m))
  }

  /** The map after a history, and the answers along it. */
  function Final<K(==), V>(calls: seq<Call<K, V>>): Entries<K, V> {
    if calls == [] then [] else After(Final(calls[..|calls| - 1]), calls[|calls| - 1])
  }

  function Replies<K(==), V>(calls: seq<Call<K, V>>): (answers: seq<Answer<K, V>>)
    ensures |answers| == |calls|
  {
    if calls == [] then []
    else
      var before := calls[..|calls| - 1];
      Replies(before) + [Reply(Final(before), calls[|calls| - 1])]
  }

  method Perform<K(==,!new), V>(map_: HashMaps.Map<K, V>, call: Call<K, V>) returns (answer: Answer<K, V>)
    requires map_.Valid()
    modifies map_, map_.slots
    ensures map_.Valid() && (map_.slots == old(map_.slots) || fresh(map_.slots))
    ensures map_.Entries() == After(old(map_.Entries()), call)
    ensures answer == Reply(old(map_.Entries()), call)
  {
    hide OrderedMaps.Get, OrderedMaps.Keys, OrderedMaps.Values, Put, Delete;
    hide HashMaps.Map.Valid, HashMaps.Map.Entries;
    match call
    case Has(key) => var b := map_.Has(key); answer := Flag(b);
    case Get(key) => var v := map_.Get(key); answer := Found(v);
    case Set(key, value) => map_.Set(key, value); answer := Done;
    case Remove(key) => var b := map_.Remove(key); answer := Flag(b);
    case Size => var n := map_.Size(); answer := Count(n);
    case KeyList => var ks := map_.KeyList(); answer := KeySeq(ks);
    case ValueList => var vs := map_.ValueList(); answer := ValueSeq(vs);
  }

  /** Every history on a new Map, under any hash function. */
  method Run<K(==,!new), V>(hashing: K -> nat, calls: seq<Call<K, V>>) returns (answers: seq<Answer<K, V>>)
    ensures answers == Replies(calls)
  {
    hide HashMaps.Map.Valid, HashMaps.Map.Entries, After, Reply;
    var m := new HashMaps.Map<K, V>(hashing);
    answers := [];
    var i := 0;
    while i < |calls|
      invariant 0 <= i <= |calls| && fresh(m) && fresh(m.slots) && m.Valid()
      invariant m.Entries() == Final(calls[..i]) && answers == Replies(calls[..i])
    {
      assert calls[..i + 1][..i] == calls[..i];
      var answer := Perform(m, calls[i]);
      answers := answers + [answer];
      i := i + 1;
    }
    assert calls[..i] == calls;
  }

  // ---- what histories mean ----

  lemma PutKeepsDistinct<K, V>(m: Entries<K, V>, key: K, value: V)
    requires Distinct(m)
    ensures Distinct(Put(m, key, value))
  {
    var r := Put(m, key, value);
    GetAfterPut(m, key, value, key);
    forall i, j | 0 <= i < j < |r|
      ensures r[i].0 != r[j].0
    {
      assert r[i].0 == OrderedMaps.Keys(r)[i] && r[j].0 == OrderedMaps.Keys(r)[j];
      assert forall k :: 0 <= k < |m| ==> OrderedMaps.Keys(m)[k] == m[k].0;
    }
  }

  lemma DeleteKeepsDistinct<K, V>(m: Entries<K, V>, key: K)
    requires Distinct(m)
    ensures Distinct(Delete(m, key))
  {
    if i :| 0 <= i < |m| && m[i].0 == key {
      DeleteSplits(m, key, i);
    } else {
      DeleteAbsent(m, key);
    }
  }

  /** No history ever lists a key twice. */
  lemma {:induction false} HistoriesKeepKeysDistinct<K, V>(calls: seq<Call<K, V>>)
    ensures Distinct(Final(calls))
    decreases |calls|
  {
    if calls != [] {
      var before := calls[..|calls| - 1];
      HistoriesKeepKeysDistinct(before);
      match calls[|calls| - 1]
      case Set(key, value) => PutKeepsDistinct(Final(before), key, value);
      case Remove(key) => DeleteKeepsDistinct(Final(before), key);
      case _ =>
    }
  }

  /** A lookup answers with the last value set for its key since the key was last removed. */
  ghost function LastSet<K, V>(calls: seq<Call<K, V>>, key: K): Option<V> {
    if calls == [] then None
    else
      match calls[|calls| - 1]
      case Set(k, value) => if k == key then Some(value) else LastSet(calls[..|calls| - 1], key)
      case Remove(k) => if k == key then None else LastSet(calls[..|calls| - 1], key)
      case _ => LastSet(calls[..|calls| - 1], key)
  }

  lemma {:induction false} LookupsReturnLastSet<K, V>(calls: seq<Call<K, V>>, key: K)
    ensures OrderedMaps.Get(Final(calls), key) == LastSet(calls, key)
    decreases |calls|
  {
    if calls != [] {
      var before := calls[..|calls| - 1];
      LookupsReturnLastSet(before, key);
      match calls[|calls| - 1]
      case Set(k, value) => GetAfterPut(Final(before), k, value, key);
      case Remove(k) => GetAfterDelete(Final(before), k, key);
      case _ =>
    }
  }
}
