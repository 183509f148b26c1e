/**
 * The deferred-work node: tickets enqueued for asynchronous work, the counts of unfinished
 * work, and the failures it reports in the order the work was enqueued.
 */
module DeferredNodes {
  import opened Options

  /** Where deferred work runs: device, serial of its batch, and whether it is a host callback. */
  datatype Key = Key(device: int, serial: nat, callback: bool)

  datatype Failure = Failure(message: string, report: Option<string>, exitStatus: Option<int>)
  {
    predicate Failed() { message != "" || report.Some? || exitStatus.Some? }
  }

  const NO_FAILURE := Failure("", None, None)

  datatype Outcome = Outcome(key: Key, sequence: nat, failure: Failure)

  predicate CoveredBy(key: Key, device: int, serial: nat) {
    key.device == device && key.serial <= serial
  }

  /** The work of a device up to a serial. */
  ghost function Covering(device: int, serial: nat): Key -> bool {
    (key: Key) => key.device == device && key.serial <= serial
  }

  // ---- the failures of finished work, in enqueue order ----

  /** The failures among the first n enqueued pieces of work. */
  ghost function FailuresOf(issued: seq<Key>, results: map<nat, Failure>, n: nat): (failures: seq<Outcome>)
    requires n <= |issued|
    ensures forall i :: 0 <= i < |failures| ==> failures[i].sequence < n
  {
    if n == 0 then []
    else
      var before := FailuresOf(issued, results, n - 1);
      if n - 1 in results && results[n - 1].Failed()
      then before + [Outcome(issued[n - 1], n - 1, results[n - 1])]
      else before
  }

  ghost predicate Ascending(failures: seq<Outcome>) {
    forall i, j :: 0 <= i < j < |failures| ==> failures[i].sequence < failures[j].sequence
  }

  lemma {:induction false} FailuresAscend(issued: seq<Key>, results: map<nat, Failure>, n: nat)
    requires n <= |issued|
    ensures Ascending(FailuresOf(issued, results, n))
  {
    if n > 0 { FailuresAscend(issued, results, n - 1); }
  }

  /** Exactly the failed pieces of work are listed, each with its own key and failure. */
  lemma {:induction false} FailuresAreComplete(issued: seq<Key>, results: map<nat, Failure>, n: nat, o: Outcome)
    requires n <= |issued|
    ensures o in FailuresOf(issued, results, n) <==>
            o.sequence < n && o.sequence in results && results[o.sequence] != NO_FAILURE
            && o == Outcome(issued[o.sequence], o.sequence, results[o.sequence])
  {
    if n > 0 { FailuresAreComplete(issued, results, n - 1, o); }
  }

  /** Work that ends without failing changes no failure. */
  lemma {:induction false} SuccessKeepsFailures(issued: seq<Key>, results: map<nat, Failure>, n: nat, s: nat, f: Failure)
    requires n <= |issued| && s !in results && !f.Failed()
    ensures FailuresOf(issued, results[s := f], n) == FailuresOf(issued, results, n)
  {
    if n > 0 { SuccessKeepsFailures(issued, results, n - 1, s, f); }
  }

  /** New work has no result yet. */
  lemma {:induction false} EnqueueKeepsFailures(issued: seq<Key>, key: Key, results: map<nat, Failure>, n: nat)
    requires n <= |issued|
    ensures FailuresOf(issued + [key], results, n) == FailuresOf(issued, results, n)
  {
    if n > 0 { EnqueueKeepsFailures(issued, key, results, n - 1); }
  }

  /** Inserting a failure before the first later one gives the failures in enqueue order. */
  lemma {:induction false} InsertedFailure(issued: seq<Key>, results: map<nat, Failure>, n: nat, s: nat, f: Failure, i: nat)
    requires n <= |issued| && s < n && s !in results && f.Failed()
    requires i <= |FailuresOf(issued, results, n)|
    requires forall k :: 0 <= k < i ==> FailuresOf(issued, results, n)[k].sequence < s
    requires i < |FailuresOf(issued, results, n)| ==> s <= FailuresOf(issued, results, n)[i].sequence
    ensures FailuresOf(issued, results[s := f], n)
         == FailuresOf(issued, results, n)[..i] + [Outcome(issued[s], s, f)] + FailuresOf(issued, results, n)[i..]
  {
    if s == n - 1 {
      SameBefore(issued, results, n - 1, s, f);
      assert FailuresOf(issued, results, n) == FailuresOf(issued, results, n - 1);
      assert i == |FailuresOf(issued, results, n)|;
    } else {
      var before, all := FailuresOf(issued, results, n - 1), FailuresOf(issued, results, n);
      var later, tail := FailuresOf(issued, results[s := f], n - 1), all[|before|..];
      assert all == before + tail && FailuresOf(issued, results[s := f], n) == later + tail;
      assert |all| > |before| ==> all[|before|].sequence == n - 1;
      hide FailuresOf;
      assert forall k :: 0 <= k < |before| ==> before[k] == all[k];
      InsertedFailure(issued, results, n - 1, s, f, i);
      InsertBefore(before, tail, i, Outcome(issued[s], s, f));
    }
  }

  lemma InsertBefore<T>(before: seq<T>, tail: seq<T>, i: nat, x: T)
    requires i <= |before|
    ensures before[..i] + [x] + before[i..] + tail == (before + tail)[..i] + [x] + (before + tail)[i..]
  {
    assert (before + tail)[..i] == before[..i] && (before + tail)[i..] == before[i..] + tail;
  }

  lemma {:induction false} SameBefore(issued: seq<Key>, results: map<nat, Failure>, n: nat, s: nat, f: Failure)
    requires n <= |issued| && n <= s
    ensures FailuresOf(issued, results[s := f], n) == FailuresOf(issued, results, n)
  {
    if n > 0 { SameBefore(issued, results, n - 1, s, f); }
  }

  /** Work s failed, and no selected work enqueued before it has. */
  ghost predicate Earliest(issued: seq<Key>, results: map<nat, Failure>, s: nat, selected: Key -> bool)
    requires forall r :: r in results ==> r < |issued|
  {
    && s in results && results[s] != NO_FAILURE && selected(issued[s])
    && forall r :: r in results && r < s && selected(issued[r]) ==> results[r] == NO_FAILURE
  }

  /** The first selected failure in the list is the earliest one; without any, no selected work failed. */
  lemma FirstSelected(issued: seq<Key>, results: map<nat, Failure>, i: nat, selected: Key -> bool)
    requires forall r :: r in results ==> r < |issued|
    requires i <= |FailuresOf(issued, results, |issued|)|
    requires forall k :: 0 <= k < i ==> !selected(FailuresOf(issued, results, |issued|)[k].key)
    ensures var failures := FailuresOf(issued, results, |issued|);
            if i == |failures| then forall r :: r in results && selected(issued[r]) ==> results[r] == NO_FAILURE
            else selected(failures[i].key) ==>
                   Earliest(issued, results, failures[i].sequence, selected)
                   && results[failures[i].sequence] == failures[i].failure
  {
    hide FailuresOf;
    var failures := FailuresOf(issued, results, |issued|);
    FailuresAscend(issued, results, |issued|);
    if i < |failures| { FailuresAreComplete(issued, results, |issued|, failures[i]); }
    forall r | r in results && selected(issued[r]) && results[r] != NO_FAILURE
      ensures exists k :: i <= k < |failures| && failures[k].sequence == r
    {
      FailuresAreComplete(issued, results, |issued|, Outcome(issued[r], r, results[r]));
    }
  }

  /** The results after finishing work in some order. */
  ghost function Results(order: seq<(nat, Failure)>): map<nat, Failure> {
    if order == [] then map[]
    else Results(order[..|order| - 1])[order[|order| - 1].0 := order[|order| - 1].1]
  }

  /** No work finishes twice. */
  ghost predicate FinishesOnce(order: seq<(nat, Failure)>) {
    forall i, j :: 0 <= i < j < |order| ==> order[i].0 != order[j].0
  }

  lemma {:induction false} ResultsRecordAll(order: seq<(nat, Failure)>, s: nat, f: Failure)
    requires FinishesOnce(order)
    ensures (s, f) in order <==> s in Results(order) && Results(order)[s] == f
  {
    if order != [] {
      var before, last := order[..|order| - 1], order[|order| - 1];
      ResultsRecordAll(before, s, f);
      assert order == before + [last];
      if s == last.0 {
        assert (s, f) !in before;
      }
    }
  }

  /** Whatever order the same work finishes in, the same failures are listed in the same order. */
  lemma CompletionOrderIsIrrelevant(issued: seq<Key>, a: seq<(nat, Failure)>, b: seq<(nat, Failure)>)
    requires FinishesOnce(a) && FinishesOnce(b) && multiset(a) == multiset(b)
    ensures FailuresOf(issued, Results(a), |issued|) == FailuresOf(issued, Results(b), |issued|)
  {
    hide Results, FailuresOf;
    SameResultsOneWay(a, b);
    SameResultsOneWay(b, a);
    assert Results(a) == Results(b);
  }

  lemma SameResultsOneWay(a: seq<(nat, Failure)>, b: seq<(nat, Failure)>)
    requires FinishesOnce(a) && FinishesOnce(b) && multiset(a) == multiset(b)
    ensures forall s: nat :: s in Results(a) ==> s in Results(b) && Results(b)[s] == Results(a)[s]
  {
    hide Results;
    forall s: nat | s in Results(a)
      ensures s in Results(b) && Results(b)[s] == Results(a)[s]
    {
      var f := Results(a)[s];
      ResultsRecordAll(a, s, f);
      assert (s, f) in multiset(a);
      ResultsRecordAll(b, s, f);
    }
  }

  // ---- counts of unfinished work ----

  ghost function Unfinished(open: set<nat>, issued: seq<Key>, key: Key): set<nat> {
    set s | s in open && s < |issued| && issued[s] == key
  }

  /** pending counts the unfinished work of each key, and has no zero count. */
  ghost predicate Counts(pending: map<Key, nat>, open: set<nat>, issued: seq<Key>) {
    && (forall key :: key in pending ==> pending[key] == |Unfinished(open, issued, key)| > 0)
    && (forall s :: s in open && s < |issued| ==> issued[s] in pending)
  }

  function Times(pending: map<Key, nat>, key: Key): nat {
    if key in pending then pending[key] else 0
  }

  /** One fewer of a key; a count of zero is erased. */
  function Decremented(pending: map<Key, nat>, key: Key): map<Key, nat>
    requires key in pending && pending[key] > 0
  {
    if pending[key] == 1 then pending - {key} else pending[key := pending[key] - 1]
  }

  lemma CountsAreExact(pending: map<Key, nat>, open: set<nat>, issued: seq<Key>, key: Key)
    requires Counts(pending, open, issued)
    ensures Times(pending, key) == |Unfinished(open, issued, key)|
  {
    if key !in pending {
      assert forall s :: s in open && s < |issued| ==> issued[s] != key;
    }
  }

  lemma UnfinishedAfterEnqueue(open: set<nat>, issued: seq<Key>, key: Key, k: Key)
    requires forall s :: s in open ==> s < |issued|
    ensures |Unfinished(open + {|issued|}, issued + [key], k)|
         == |Unfinished(open, issued, k)| + if k == key then 1 else 0
  {
    assert Unfinished(open + {|issued|}, issued + [key], k)
        == Unfinished(open, issued, k) + if k == key then {|issued|} else {};
  }

  lemma CountsAfterEnqueue(pending: map<Key, nat>, open: set<nat>, issued: seq<Key>, key: Key)
    requires Counts(pending, open, issued) && forall s :: s in open ==> s < |issued|
    ensures Counts(pending[key := Times(pending, key) + 1], open + {|issued|}, issued + [key])
  {
    var after, open', issued' := pending[key := Times(pending, key) + 1], open + {|issued|}, issued + [key];
    forall k | k in after
      ensures after[k] == |Unfinished(open', issued', k)| > 0
    {
      CountsAreExact(pending, open, issued, k);
      UnfinishedAfterEnqueue(open, issued, key, k);
    }
  }

  lemma CountsAfterFinish(pending: map<Key, nat>, open: set<nat>, issued: seq<Key>, s: nat)
    requires Counts(pending, open, issued) && s in open && s < |issued|
    ensures issued[s] in pending && pending[issued[s]] > 0
    ensures Counts(Decremented(pending, issued[s]), open - {s}, issued)
  {
    var key := issued[s];
    forall k | k in pending
      ensures Unfinished(open - {s}, issued, k)
           == if k == key then Unfinished(open, issued, k) - {s} else Unfinished(open, issued, k)
    {
    }
    assert s in Unfinished(open, issued, key);
    var rest := Unfinished(open - {s}, issued, key);
    assert |rest| == pending[key] - 1;
    if rest == {} {
      assert forall r :: r in open - {s} && r < |issued| && issued[r] == key ==> r in rest;
    }
  }

  ghost function Sum(pending: map<Key, nat>): nat {
    if pending == map[] then 0
    else
      var key :| key in pending;
      pending[key] + Sum(pending - {key})
  }

  /** The counts of all keys add up to the number of unfinished pieces of work. */
  lemma {:induction false} SumOfCounts(pending: map<Key, nat>, open: set<nat>, issued: seq<Key>)
    requires Counts(pending, open, issued) && forall s :: s in open ==> s < |issued|
    ensures Sum(pending) == |open|
  {
    if pending == map[] {
      assert open == {};
    } else {
      var key :| key in pending && Sum(pending) == pending[key] + Sum(pending - {key});
      var these := Unfinished(open, issued, key);
      forall k | k in pending - {key}
        ensures Unfinished(open - these, issued, k) == Unfinished(open, issued, k)
      {
      }
      SumOfCounts(pending - {key}, open - these, issued);
      assert |open| == |open - these| + |these|;
    }
  }

  /** The first n enqueues split into unfinished and finished ones. */
  ghost predicate Partition(open: set<nat>, done: set<nat>, n: nat) {
    && open !! done
    && (forall s: nat :: s in open || s in done ==> s < n)
    && (forall s: nat :: s < n ==> s in open || s in done)
  }

  lemma PartitionAfterEnqueue(open: set<nat>, done: set<nat>, n: nat)
    requires Partition(open, done, n)
    ensures Partition(open + {n}, done, n + 1) && n !in open && n !in done && forall s :: s in open ==> s < n
  {
  }

  lemma PartitionAfterFinish(open: set<nat>, done: set<nat>, n: nat, s: nat)
    requires Partition(open, done, n) && s in open
    ensures Partition(open - {s}, done + {s}, n) && s < n && s !in done
  {
  }

  // ---- keys of maps ----

  lemma KeysWithOne<T>(m: map<nat, T>, k: nat, x: T)
    ensures m[k := x].Keys == m.Keys + {k} && (k !in m ==> |m[k := x].Keys| == |m.Keys| + 1)
  {
    assert m[k := x].Keys == m.Keys + {k};
  }

  lemma KeysWithoutOne<T>(m: map<nat, T>, k: nat)
    requires k in m
    ensures (m - {k}).Keys == m.Keys - {k} && |(m - {k}).Keys| == |m.Keys| - 1
  {
    assert (m - {k}).Keys == m.Keys - {k};
  }

  // ---- the node ----

  class DeferredNode {
    var pending: map<Key, nat>
    var count: nat
    var nextSequence: nat
    var failures: seq<Outcome>
    ghost var issued: seq<Key>                      // the key of every enqueue so far
    ghost var holders: map<nat, DeferredTicket>     // the one ticket of each unfinished enqueue
    ghost var results: map<nat, Failure>            // how each finished enqueue ended

    /** Each enqueue is finished or unfinished, never both; counts and failures follow from that. */
    ghost predicate Settled()
      reads this`pending, this`count, this`nextSequence, this`failures, this`issued, this`holders, this`results
    {
      && nextSequence == |issued|
      && Partition(holders.Keys, results.Keys, |issued|)
      && Counts(pending, holders.Keys, issued)
      && count == |holders.Keys|
      && failures == FailuresOf(issued, results, |issued|)
    }

    ghost predicate Valid()
      reads this, holders.Values
    {
      && Settled()
      && forall s :: s in holders ==>
           holders[s].owner == this && holders[s].outcome == Some(Outcome(issued[s], s, NO_FAILURE))
    }

    /** Work s has just ended, that way, and nothing else has. */
    twostate predicate Ended(s: nat, failure: Failure)
      reads this
    {
      && s in old(holders)
      && holders == old(holders) - {s}
      && results == old(results)[s := failure]
      && issued == old(issued)
    }

    constructor ()
      ensures Valid() && issued == [] && holders == map[] && results == map[]
    {
      pending, count, nextSequence, failures := map[], 0, 0, [];
      issued, holders, results := [], map[], map[];
    }

    method Enqueue(device: int, serial: nat, callback: bool) returns (ticket: DeferredTicket)
      requires Valid()
      modifies this
      ensures Valid() && fresh(ticket) && ticket.Holds(this, |old(issued)|)
      ensures issued == old(issued) + [Key(device, serial, callback)]
      ensures holders == old(holders)[|old(issued)| := ticket] && results == old(results)
      ensures failures == old(failures)
    {
      hide Settled;
      HoldersAreIssued();
      ticket := new DeferredTicket.Empty();
      var sequence := Reserve(Key(device, serial, callback), ticket);
      ticket.owner := this;
      ticket.outcome := Some(Outcome(Key(device, serial, callback), sequence, NO_FAILURE));
    }

    /** Counts one more piece of work under its key and gives it the next sequence number. */
    method Reserve(key: Key, ghost ticket: DeferredTicket) returns (sequence: nat)
      requires Settled()
      modifies this`pending, this`count, this`nextSequence, this`holders, this`issued
      ensures Settled() && sequence == |old(issued)|
      ensures issued == old(issued) + [key] && holders == old(holders)[sequence := ticket]
    {
      hide FailuresOf, Counts, Partition, Times;
      PartitionAfterEnqueue(holders.Keys, results.Keys, |issued|);
      CountsAfterEnqueue(pending, holders.Keys, issued, key);
      NewWorkHasNotFailed(issued, key, results);
      ghost var open := holders[|issued| := ticket];
      KeysWithOne(holders, |issued|, ticket);
      pending := pending[key := Times(pending, key) + 1];
      count := count + 1;
      sequence := nextSequence;
      nextSequence := nextSequence + 1;
      holders, issued := open, issued + [key];
    }

    lemma HoldersAreIssued()
      requires Settled()
      ensures forall s :: s in holders ==> s < |issued|
    {
    }

    /** Work s is now held by another ticket. */
    ghost method HandOver(s: nat, ticket: DeferredTicket)
      requires Settled() && s in holders
      modifies this`holders
      ensures Settled() && holders == old(holders)[s := ticket]
    {
      hide FailuresOf, Counts;
      holders := holders[s := ticket];
      assert holders.Keys == old(holders.Keys);
    }

    /** Takes a finished outcome in: a failure goes to its place in enqueue order. */
    method Finish(cell: Outcome, failure: Failure) returns (view: Failure)
      requires Settled() && cell.sequence in holders && cell == Outcome(issued[cell.sequence], cell.sequence, NO_FAILURE)
      modifies this
      ensures Ended(cell.sequence, failure) && Settled()
      ensures view == failure
    {
      hide FailuresOf, Counts, Partition;
      ghost var s := cell.sequence;
      PartitionAfterFinish(holders.Keys, results.Keys, |issued|, s);
      view := NO_FAILURE;
      if failure.Failed() {
        Link(cell, failure);
        view := failure;
      } else {
        SuccessKeepsFailures(issued, results, |issued|, s, failure);
      }
      CountOff(cell, failure);
    }

    /** One piece of work fewer under its key. */
    method CountOff(cell: Outcome, ghost failure: Failure)
      requires nextSequence == |issued| && Partition(holders.Keys, results.Keys, |issued|)
      requires Counts(pending, holders.Keys, issued) && count == |holders.Keys|
      requires cell.sequence in holders && cell.sequence < |issued| && cell.key == issued[cell.sequence]
      requires failures == FailuresOf(issued, results[cell.sequence := failure], |issued|)
      modifies this`pending, this`count, this`holders, this`results
      ensures Ended(cell.sequence, failure) && Settled()
    {
      hide FailuresOf, Counts, Partition, Decremented;
      ghost var s := cell.sequence;
      PartitionAfterFinish(holders.Keys, results.Keys, |issued|, s);
      CountsAfterFinish(pending, holders.Keys, issued, s);
      ghost var left, done := holders - {s}, results[s := failure];
      KeysWithoutOne(holders, s);
      KeysWithOne(results, s, failure);
      pending := Decremented(pending, cell.key);
      count := count - 1;
      holders, results := left, done;
    }

    /** Inserts a failure before the first one enqueued later. */
    method Link(cell: Outcome, failure: Failure)
      requires failures == FailuresOf(issued, results, |issued|)
      requires cell.sequence < |issued| && cell.sequence !in results && failure.Failed()
      requires cell.key == issued[cell.sequence]
      modifies this`failures
      ensures failures == FailuresOf(issued, results[cell.sequence := failure], |issued|)
    {
      hide FailuresOf;
      FailuresAscend(issued, results, |issued|);
      var link := 0;
      while link < |failures| && failures[link].sequence < cell.sequence
        invariant link <= |failures| && forall k :: 0 <= k < link ==> failures[k].sequence < cell.sequence
        modifies {}
      {
        link := link + 1;
      }
      InsertedFailure(issued, results, |issued|, cell.sequence, failure, link);
      failures := failures[..link] + [cell.(failure := failure)] + failures[link..];
    }

    /** The condition wait_covered waits for: no unfinished work it covers. */
    method NoneCovered(device: int, serial: nat, skipCallbacks: bool) returns (none: bool)
      requires Valid()
      ensures none <==>
              forall s :: s in holders && issued[s].device == device && issued[s].serial <= serial ==>
                skipCallbacks && issued[s].callback
    {
      hide FailuresOf;
      var rest := pending.Keys;
      while rest != {}
        invariant rest <= pending.Keys
        invariant forall key :: key in pending.Keys - rest && CoveredBy(key, device, serial) ==> skipCallbacks && key.callback
        decreases |rest|
      {
        var key :| key in rest;
        if CoveredBy(key, device, serial) && pending[key] > 0 && !(skipCallbacks && key.callback) {
          ghost var s :| s in Unfinished(holders.Keys, issued, key);
          return false;
        }
        rest := rest - {key};
      }
      return true;
    }

    method Idle() returns (idle: bool)
      requires Valid()
      ensures idle <==> forall s: nat :: s < |issued| ==> s in results
    {
      idle := count == 0;
      assert idle <==> holders.Keys == {};
    }

    /** The earliest enqueued of the failures so far. */
    method FirstFailure() returns (first: Option<Failure>)
      requires Valid()
      ensures first.None? ==> forall s :: s in results ==> results[s] == NO_FAILURE
      ensures first.Some? ==> exists s :: Earliest(issued, results, s, _ => true) && first == Some(results[s])
    {
      hide FailuresOf, Counts;
      FirstSelected(issued, results, 0, _ => true);
      if failures == [] { return None; }
      return Some(failures[0].failure);
    }

    /** The earliest enqueued of the failures a synchronization covers. */
    method CoveredFailure(device: int, serial: nat) returns (first: Option<Failure>)
      requires Valid()
      ensures first.None? ==>
                forall s :: s in results && issued[s].device == device && issued[s].serial <= serial ==> results[s] == NO_FAILURE
      ensures first.Some? ==> exists s :: Earliest(issued, results, s, Covering(device, serial)) && first == Some(results[s])
    {
      hide FailuresOf, Counts, Earliest;
      var i := 0;
      while i < |failures|
        invariant 0 <= i <= |failures|
        invariant forall k :: 0 <= k < i ==> !Covering(device, serial)(failures[k].key)
      {
        if CoveredBy(failures[i].key, device, serial) {
          FirstSelected(issued, results, i, Covering(device, serial));
          return Some(failures[i].failure);
        }
        i := i + 1;
      }
      FirstSelected(issued, results, i, Covering(device, serial));
      return None;
    }

    /** The node's count is the sum of its per-key counts and the number of unfinished tickets. */
    lemma CountIsSum()
      requires Valid()
      ensures count == Sum(pending) == |holders.Keys|
    {
      SumOfCounts(pending, holders.Keys, issued);
    }
  }

  lemma NewWorkHasNotFailed(issued: seq<Key>, key: Key, results: map<nat, Failure>)
    requires |issued| !in results
    ensures FailuresOf(issued + [key], results, |issued + [key]|) == FailuresOf(issued, results, |issued|)
  {
    EnqueueKeepsFailures(issued, key, results, |issued|);
  }

  // ---- tickets ----

  class DeferredTicket {
    var owner: DeferredNode?
    var outcome: Option<Outcome>

    /** This is the ticket of the node's unfinished enqueue s. */
    ghost predicate Holds(node: DeferredNode, s: nat)
      reads this, node
    {
      && owner == node && s in node.holders && node.holders[s] == this
      && outcome.Some? && outcome.value.sequence == s
    }

    /** A ticket with an owner is the one ticket of an unfinished enqueue. */
    ghost predicate Sound()
      reads this, owner, if owner == null then {} else owner.holders.Values
    {
      if owner == null then outcome == None
      else outcome.Some? && Holds(owner, outcome.value.sequence) && owner.Valid()
    }

    constructor Empty()
      ensures owner == null && outcome == None
    {
      owner, outcome := null, None;
    }

    /** Ends the ticket's work once; a ticket without work does nothing. */
    method Complete(failure: Failure) returns (view: Failure)
      requires Sound()
      modifies this, owner
      ensures owner == null && outcome == None
      ensures old(owner) == null ==> view == NO_FAILURE
      ensures old(owner) != null ==>
                && old(owner).Valid() && old(owner).Ended(old(outcome).value.sequence, failure)
                && view == failure
    {
      hide DeferredNode.Settled;
      view := NO_FAILURE;
      if owner != null {
        view := owner.Finish(outcome.value, failure);
        owner, outcome := null, None;
      }
    }

    /** An empty ticket takes another's work over; the other is left without work. */
    method Take(other: DeferredTicket)
      requires other.Sound() && owner == null && outcome == None && this != other
      modifies this, other, other.owner
      ensures Sound() && other.owner == null && other.outcome == None
      ensures owner == old(other.owner) && outcome == old(other.outcome)
      ensures owner != null ==>
                && owner.holders == old(other.owner.holders)[outcome.value.sequence := this]
                && owner.issued == old(other.owner.issued) && owner.results == old(other.owner.results)
    {
      hide DeferredNode.Settled;
      owner, outcome := other.owner, other.outcome;
      other.owner, other.outcome := null, None;
      if owner != null { owner.HandOver(outcome.value.sequence, this); }
    }

    constructor Move(other: DeferredTicket)
      requires other.Sound()
      modifies other, other.owner
      ensures Sound() && other.owner == null && other.outcome == None
      ensures owner == old(other.owner) && outcome == old(other.outcome)
      ensures owner != null ==>
                && owner.holders == old(other.owner.holders)[outcome.value.sequence := this]
                && owner.issued == old(other.owner.issued) && owner.results == old(other.owner.results)
    {
      owner, outcome := null, None;
      new;
      hide DeferredNode.Valid;
      Take(other);
    }

    /** Move assignment first ends the work this ticket still held; onto itself it does nothing. */
    method Assign(other: DeferredTicket)
      requires Sound() && other.Sound()
      modifies this, owner, other, other.owner
      ensures Sound() && owner == old(other.owner) && outcome == old(other.outcome)
      ensures this != other ==> other.owner == null && other.outcome == None
      ensures this != other && old(owner) != null && old(owner) != owner ==>
                old(owner).Valid() && old(owner).Ended(old(outcome).value.sequence, NO_FAILURE)
      ensures this != other && owner != null && old(owner) != owner ==>
                && owner.holders == old(other.owner.holders)[outcome.value.sequence := this]
                && owner.issued == old(other.owner.issued) && owner.results == old(other.owner.results)
      ensures this != other && owner != null && old(owner) == owner ==>
                && var s := old(outcome).value.sequence;
                && owner.holders == (old(owner.holders) - {s})[outcome.value.sequence := this]
                && owner.issued == old(owner.issued) && owner.results == old(owner.results)[s := NO_FAILURE]
    {
      hide DeferredNode.Settled;
      if this == other { return; }
      var _ := Complete(NO_FAILURE);
      Take(other);
    }

    /** Destruction ends the work still held, without a failure. */
    method Destroy()
      requires Sound()
      modifies this, owner
      ensures owner == null
      ensures old(owner) != null ==>
                old(owner).Valid() && old(owner).Ended(old(outcome).value.sequence, NO_FAILURE)
    {
      var _ := Complete(NO_FAILURE);
    }
  }
}
