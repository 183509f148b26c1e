/**
 * The device block pool: blocks a buffer gives back wait for the event recorded behind their
 * last use (or for a full synchronization), become free, and are handed out best fit first.
 */
module DevicePools {
  import opened Options

  type Pointer = nat
  type Event = nat

  datatype Block = Block(bytes: nat, pointer: Pointer)

  datatype PendingBlock = PendingBlock(device: nat, event: Event, block: Block)

  /** What the pool knows of an allocation: who has it, and the size it is recorded with. */
  datatype Kind = InUse(device: nat) | Waiting(device: nat, event: Event) | Retired(device: nat) | Free(device: nat)
  datatype Spot = Spot(kind: Kind, bytes: nat)

  type Owners = map<Pointer, Spot>

  /** How a block was last given back: behind which event, and after how many synchronization markers its last use came. */
  datatype Given = Given(device: nat, event: Option<Event>, lastUse: nat)

  type Memory = map<Pointer, Given>

  // ---- lists of blocks ----

  /** The blocks of a list are, one each, the allocations of a kind. */
  ghost predicate Lists(blocks: seq<Block>, owners: Owners, kind: Kind) {
    && (forall i :: 0 <= i < |blocks| ==>
          blocks[i].pointer in owners && owners[blocks[i].pointer] == Spot(kind, blocks[i].bytes))
    && (forall i, j :: 0 <= i < j < |blocks| ==> blocks[i].pointer != blocks[j].pointer)
    && (forall p :: p in owners && owners[p].kind == kind ==> Block(owners[p].bytes, p) in blocks)
  }

  lemma ListsOthers(blocks: seq<Block>, owners: Owners, kind: Kind, p: Pointer, spot: Spot)
    requires Lists(blocks, owners, kind) && spot.kind != kind && (p in owners ==> owners[p].kind != kind)
    ensures Lists(blocks, owners[p := spot], kind)
  {
  }

  lemma ListsAppend(blocks: seq<Block>, owners: Owners, kind: Kind, block: Block)
    requires Lists(blocks, owners, kind) && (block.pointer in owners ==> owners[block.pointer].kind != kind)
    ensures Lists(blocks + [block], owners[block.pointer := Spot(kind, block.bytes)], kind)
  {
    assert (blocks + [block])[|blocks|] == block;
  }

  lemma ListsRemove(blocks: seq<Block>, owners: Owners, kind: Kind, i: nat, spot: Spot)
    requires Lists(blocks, owners, kind) && i < |blocks| && spot.kind != kind
    ensures Lists(blocks[..i] + blocks[i + 1..], owners[blocks[i].pointer := spot], kind)
  {
    var rest := blocks[..i] + blocks[i + 1..];
    forall p | p in owners && owners[p].kind == kind && p != blocks[i].pointer
      ensures Block(owners[p].bytes, p) in rest
    {
      var j :| 0 <= j < |blocks| && blocks[j] == Block(owners[p].bytes, p);
      assert rest[if j < i then j else j - 1] == blocks[j];
    }
  }

  ghost predicate PendingLists(pending: seq<PendingBlock>, owners: Owners) {
    && (forall i :: 0 <= i < |pending| ==>
          var b := pending[i].block;
          b.pointer in owners && owners[b.pointer] == Spot(Waiting(pending[i].device, pending[i].event), b.bytes))
    && (forall i, j :: 0 <= i < j < |pending| ==> pending[i].block.pointer != pending[j].block.pointer)
    && (forall p :: p in owners && owners[p].kind.Waiting? ==> Among(pending, p))
  }

  ghost predicate Among(pending: seq<PendingBlock>, p: Pointer) {
    exists i :: 0 <= i < |pending| && pending[i].block.pointer == p
  }

  lemma PendingOthers(pending: seq<PendingBlock>, owners: Owners, p: Pointer, spot: Spot)
    requires PendingLists(pending, owners) && !spot.kind.Waiting? && (p in owners ==> !owners[p].kind.Waiting?)
    ensures PendingLists(pending, owners[p := spot])
  {
  }

  lemma PendingAppend(pending: seq<PendingBlock>, owners: Owners, last: PendingBlock)
    requires PendingLists(pending, owners)
    requires last.block.pointer in owners ==> !owners[last.block.pointer].kind.Waiting?
    ensures PendingLists(pending + [last],
                         owners[last.block.pointer := Spot(Waiting(last.device, last.event), last.block.bytes)])
  {
    var after := pending + [last];
    assert after[|pending|].block.pointer == last.block.pointer;
    forall p | Among(pending, p)
      ensures Among(after, p)
    {
      var i :| 0 <= i < |pending| && pending[i].block.pointer == p;
      assert after[i].block.pointer == p;
    }
  }

  lemma PendingRemove(pending: seq<PendingBlock>, owners: Owners, i: nat, spot: Spot)
    requires PendingLists(pending, owners) && i < |pending| && !spot.kind.Waiting?
    ensures PendingLists(pending[..i] + pending[i + 1..], owners[pending[i].block.pointer := spot])
  {
    var rest := pending[..i] + pending[i + 1..];
    forall p | Among(pending, p) && p != pending[i].block.pointer
      ensures Among(rest, p)
    {
      var j :| 0 <= j < |pending| && pending[j].block.pointer == p;
      assert rest[if j < i then j else j - 1].block.pointer == p;
    }
  }

  /** Everything of one kind becomes another. */
  ghost function Moved(owners: Owners, source: Kind, target: Kind): Owners {
    map p | p in owners :: if owners[p].kind == source then Spot(target, owners[p].bytes) else owners[p]
  }

  lemma ListsMoved(blocks: seq<Block>, owners: Owners, kind: Kind, source: Kind, target: Kind)
    requires Lists(blocks, owners, kind) && kind != source && kind != target
    ensures Lists(blocks, Moved(owners, source, target), kind)
  {
  }

  lemma PendingMoved(pending: seq<PendingBlock>, owners: Owners, source: Kind, target: Kind)
    requires PendingLists(pending, owners) && !source.Waiting? && !target.Waiting?
    ensures PendingLists(pending, Moved(owners, source, target))
  {
  }

  /** Everything of one kind is gone. */
  ghost function Dropped(owners: Owners, kind: Kind): Owners {
    map p | p in owners && owners[p].kind != kind :: owners[p]
  }

  lemma DroppedIsPart(owners: Owners, kind: Kind)
    ensures forall p :: p in Dropped(owners, kind) ==> p in owners && owners[p] == Dropped(owners, kind)[p]
  {
  }

  lemma ListsDropped(blocks: seq<Block>, owners: Owners, kind: Kind, gone: Kind)
    requires Lists(blocks, owners, kind) && kind != gone
    ensures Lists(blocks, Dropped(owners, gone), kind)
  {
  }

  lemma NoneDropped(owners: Owners, gone: Kind)
    ensures Lists([], Dropped(owners, gone), gone)
  {
  }

  lemma PendingDropped(pending: seq<PendingBlock>, owners: Owners, gone: Kind)
    requires PendingLists(pending, owners) && !gone.Waiting?
    ensures PendingLists(pending, Dropped(owners, gone))
  {
  }

  lemma ListsWithout(blocks: seq<Block>, owners: Owners, kind: Kind, p: Pointer)
    requires Lists(blocks, owners, kind) && (p in owners ==> owners[p].kind != kind)
    ensures Lists(blocks, owners - {p}, kind)
  {
  }

  lemma PendingWithout(pending: seq<PendingBlock>, owners: Owners, p: Pointer)
    requires PendingLists(pending, owners) && (p in owners ==> !owners[p].kind.Waiting?)
    ensures PendingLists(pending, owners - {p})
  {
  }

  lemma ListsJoin(blocks: seq<Block>, more: seq<Block>, owners: Owners, source: Kind, target: Kind)
    requires Lists(more, owners, source) && Lists(blocks, owners, target) && source != target
    ensures Lists(blocks + more, Moved(owners, source, target), target) && Lists([], Moved(owners, source, target), source)
  {
    forall p | p in owners && owners[p].kind == source
      ensures Block(owners[p].bytes, p) in blocks + more
    {
    }
    forall i, j | 0 <= i < |blocks| && 0 <= j < |more|
      ensures blocks[i].pointer != more[j].pointer
    {
      assert owners[blocks[i].pointer].kind == target && owners[more[j].pointer].kind == source;
    }
  }

  // ---- what a reap does ----

  predicate Ready(pending: PendingBlock, device: nat, completed: bool, done: set<Event>) {
    pending.device == device && (completed || pending.event in done)
  }

  /** A waiting block of the device becomes free once its event is done, or at a synchronization. */
  ghost function Freed(spot: Spot, device: nat, completed: bool, done: set<Event>): Spot {
    if spot.kind.Waiting? && spot.kind.device == device && (completed || spot.kind.event in done)
    then Spot(Free(device), spot.bytes)
    else spot
  }

  /** Only a synchronization frees the blocks that have no event. */
  ghost function Reaped(spot: Spot, device: nat, completed: bool, done: set<Event>): Spot {
    if completed && spot.kind == Retired(device) then Spot(Free(device), spot.bytes)
    else Freed(spot, device, completed, done)
  }

  /** The blocks of the first n that stay, and all that still wait when n have been examined. */
  function Staying(pending: seq<PendingBlock>, device: nat, completed: bool, done: set<Event>): seq<PendingBlock> {
    if pending == [] then []
    else
      var last := pending[|pending| - 1];
      Staying(pending[..|pending| - 1], device, completed, done)
      + if Ready(last, device, completed, done) then [] else [last]
  }

  function StillWaiting(pending: seq<PendingBlock>, n: nat, device: nat, completed: bool, done: set<Event>): seq<PendingBlock>
    requires n <= |pending|
  {
    Staying(pending[..n], device, completed, done) + pending[n..]
  }

  lemma ExamineOne(pending: seq<PendingBlock>, n: nat, device: nat, completed: bool, done: set<Event>)
    requires n < |pending|
    ensures var staying := Staying(pending[..n], device, completed, done);
            var waiting := StillWaiting(pending, n, device, completed, done);
            var next := StillWaiting(pending, n + 1, device, completed, done);
            && |staying| < |waiting| && waiting[|staying|] == pending[n]
            && if Ready(pending[n], device, completed, done)
               then next == waiting[..|staying|] + waiting[|staying| + 1..]
                    && Staying(pending[..n + 1], device, completed, done) == staying
               else next == waiting
                    && Staying(pending[..n + 1], device, completed, done) == staying + [pending[n]]
  {
    assert pending[..n + 1][..n] == pending[..n];
  }

  lemma WholeList(pending: seq<PendingBlock>, device: nat, completed: bool, done: set<Event>)
    ensures StillWaiting(pending, 0, device, completed, done) == pending && Staying(pending[..0], device, completed, done) == []
    ensures StillWaiting(pending, |pending|, device, completed, done) == Staying(pending, device, completed, done)
    ensures pending[..|pending|] == pending
  {
    assert pending[..|pending|] == pending;
  }

  /** Every allocation is recorded with a size it really has. */
  ghost predicate Recorded(owners: Owners, capacity: map<Pointer, nat>) {
    owners.Keys == capacity.Keys && forall p :: p in owners ==> 0 < owners[p].bytes <= capacity[p]
  }

  ghost function Kept(capacity: map<Pointer, nat>, owners: Owners): map<Pointer, nat> {
    map p | p in capacity && p in owners :: capacity[p]
  }

  /**
   What a compaction leaves of the list when it finds no memory for the n-th block to free:
   the blocks that stay have moved to the front, everything behind them is as it was.
  */
  function Interrupted(pending: seq<PendingBlock>, n: nat, device: nat, completed: bool, done: set<Event>): seq<PendingBlock>
    requires n <= |pending|
  {
    var staying := Staying(pending[..n], device, completed, done);
    if |staying| <= n then staying + pending[|staying|..] else pending
  }

  ghost predicate NoneReady(pending: seq<PendingBlock>, device: nat, completed: bool, done: set<Event>) {
    forall k :: 0 <= k < |pending| ==> !Ready(pending[k], device, completed, done)
  }

  lemma NoneReadyOneMore(before: seq<PendingBlock>, last: PendingBlock, device: nat, completed: bool, done: set<Event>)
    ensures NoneReady(before + [last], device, completed, done)
            <==> NoneReady(before, device, completed, done) && !Ready(last, device, completed, done)
  {
    var all := before + [last];
    assert all[|before|] == last && forall k :: 0 <= k < |before| ==> all[k] == before[k];
  }

  lemma StayingOneMore(before: seq<PendingBlock>, last: PendingBlock, device: nat, completed: bool, done: set<Event>)
    ensures Staying(before + [last], device, completed, done)
         == Staying(before, device, completed, done) + if Ready(last, device, completed, done) then [] else [last]
  {
    assert (before + [last])[..|before|] == before;
  }

  lemma {:induction false} StayingIsShorter(pending: seq<PendingBlock>, device: nat, completed: bool, done: set<Event>)
    ensures var staying := Staying(pending, device, completed, done);
            && |staying| <= |pending|
            && (|staying| == |pending| ==> staying == pending)
            && (|staying| == |pending| <==> NoneReady(pending, device, completed, done))
  {
    if pending != [] {
      hide Staying, NoneReady, Ready;
      var before, last := pending[..|pending| - 1], pending[|pending| - 1];
      assert pending == before + [last];
      StayingIsShorter(before, device, completed, done);
      StayingOneMore(before, last, device, completed, done);
      NoneReadyOneMore(before, last, device, completed, done);
    }
  }

  /**
   The interrupted list is the list of the waiting blocks exactly when no block had been freed
   yet. Otherwise a freed block is still on it, or a waiting one is on it twice.
  */
  lemma InterruptedIsSoundExactlyWhen(pending: seq<PendingBlock>, owners: Owners, n: nat, device: nat, completed: bool,
                                      done: set<Event>)
    requires PendingLists(pending, owners) && n < |pending|
    ensures PendingLists(Interrupted(pending, n, device, completed, done),
                         FreedBut(owners, pending[n..], device, completed, done))
            <==> forall k :: 0 <= k < n ==> !Ready(pending[k], device, completed, done)
  {
    hide PendingLists, FreedBut, Staying, Ready;
    var after := FreedBut(owners, pending[n..], device, completed, done);
    var staying, left := Staying(pending[..n], device, completed, done), Interrupted(pending, n, device, completed, done);
    StayingIsShorter(pending[..n], device, completed, done);
    assert forall k :: 0 <= k < n ==> pending[..n][k] == pending[k];
    if |staying| == n {
      NothingFreed(pending, owners, n, device, completed, done);
      assert left == pending;
    } else {
      hide NoneReady;
      var last := pending[n - 1];
      assert left[n - 1] == last;
      if Ready(last, device, completed, done) {
        IsFreed(pending, owners, n, device, completed, done);
        FreedIsUnsound(left, after, n - 1, device);
      } else {
        assert pending[..n] == pending[..n - 1] + [last];
        StayingOneMore(pending[..n - 1], last, device, completed, done);
        TwiceIsUnsound(left, after, |staying| - 1, n - 1);
      }
    }
  }

  lemma FreedIsUnsound(pending: seq<PendingBlock>, owners: Owners, i: nat, device: nat)
    requires i < |pending| && pending[i].block.pointer in owners && owners[pending[i].block.pointer].kind == Free(device)
    ensures !PendingLists(pending, owners)
  {
  }

  lemma TwiceIsUnsound(pending: seq<PendingBlock>, owners: Owners, i: nat, j: nat)
    requires i < j < |pending| && pending[i] == pending[j]
    ensures !PendingLists(pending, owners)
  {
  }

  lemma NothingFreed(pending: seq<PendingBlock>, owners: Owners, n: nat, device: nat, completed: bool, done: set<Event>)
    requires PendingLists(pending, owners) && n <= |pending|
    requires forall k :: 0 <= k < n ==> !Ready(pending[k], device, completed, done)
    ensures FreedBut(owners, pending[n..], device, completed, done) == owners
  {
    forall k | n <= k < |pending|
      ensures Among(pending[n..], pending[k].block.pointer)
    {
      assert pending[n..][k - n] == pending[k];
    }
    forall p | p in owners && !Among(pending[n..], p)
      ensures Freed(owners[p], device, completed, done) == owners[p]
    {
      if owners[p].kind.Waiting? {
        var k :| 0 <= k < |pending| && pending[k].block.pointer == p;
      }
    }
  }

  /** A ready block before the n-th has been freed. */
  lemma IsFreed(pending: seq<PendingBlock>, owners: Owners, n: nat, device: nat, completed: bool, done: set<Event>)
    requires PendingLists(pending, owners) && 0 < n < |pending| && Ready(pending[n - 1], device, completed, done)
    ensures var p := pending[n - 1].block.pointer;
            var after := FreedBut(owners, pending[n..], device, completed, done);
            p in after && after[p].kind == Free(device)
  {
    SuffixAmong(pending, owners, n - 1);
    hide PendingLists, Among;
  }

  // ---- the lists of all devices ----

  /** The free and the retired lists hold exactly the free and the retired blocks of each device. */
  ghost predicate Stored(free: seq<seq<Block>>, retired: seq<seq<Block>>, owners: Owners) {
    && |free| == |retired|
    && (forall d :: 0 <= d < |free| ==> Lists(free[d], owners, Free(d)) && Lists(retired[d], owners, Retired(d)))
    && (forall p :: p in owners && (owners[p].kind.Free? || owners[p].kind.Retired?) ==> owners[p].kind.device < |free|)
  }

  predicate Listed(kind: Kind) {
    kind.Free? || kind.Retired?
  }

  /** A block neither leaves nor enters these lists. */
  lemma StoredElsewhere(free: seq<seq<Block>>, retired: seq<seq<Block>>, owners: Owners, p: Pointer, spot: Spot)
    requires Stored(free, retired, owners) && !Listed(spot.kind) && (p in owners ==> !Listed(owners[p].kind))
    ensures Stored(free, retired, owners[p := spot])
  {
    hide Lists;
    forall d | 0 <= d < |free|
      ensures Lists(free[d], owners[p := spot], Free(d)) && Lists(retired[d], owners[p := spot], Retired(d))
    {
      ListsOthers(free[d], owners, Free(d), p, spot);
      ListsOthers(retired[d], owners, Retired(d), p, spot);
    }
  }

  lemma StoredFree(free: seq<seq<Block>>, retired: seq<seq<Block>>, owners: Owners, d: nat, block: Block)
    requires Stored(free, retired, owners) && d < |free|
    requires block.pointer in owners ==> !Listed(owners[block.pointer].kind)
    ensures Stored(free[d := free[d] + [block]], retired, owners[block.pointer := Spot(Free(d), block.bytes)])
  {
    hide Lists;
    var p, spot := block.pointer, Spot(Free(d), block.bytes);
    forall e | 0 <= e < |free|
      ensures e != d ==> Lists(free[e], owners[p := spot], Free(e))
      ensures Lists(retired[e], owners[p := spot], Retired(e))
    {
      if e != d { ListsOthers(free[e], owners, Free(e), p, spot); }
      ListsOthers(retired[e], owners, Retired(e), p, spot);
    }
    ListsAppend(free[d], owners, Free(d), block);
  }

  lemma StoredRetired(free: seq<seq<Block>>, retired: seq<seq<Block>>, owners: Owners, d: nat, block: Block)
    requires Stored(free, retired, owners) && d < |free|
    requires block.pointer in owners ==> !Listed(owners[block.pointer].kind)
    ensures Stored(free, retired[d := retired[d] + [block]], owners[block.pointer := Spot(Retired(d), block.bytes)])
  {
    hide Lists;
    var p, spot := block.pointer, Spot(Retired(d), block.bytes);
    forall e | 0 <= e < |free|
      ensures Lists(free[e], owners[p := spot], Free(e))
      ensures e != d ==> Lists(retired[e], owners[p := spot], Retired(e))
    {
      ListsOthers(free[e], owners, Free(e), p, spot);
      if e != d { ListsOthers(retired[e], owners, Retired(e), p, spot); }
    }
    ListsAppend(retired[d], owners, Retired(d), block);
  }

  lemma StoredTaken(free: seq<seq<Block>>, retired: seq<seq<Block>>, owners: Owners, d: nat, i: nat, spot: Spot)
    requires Stored(free, retired, owners) && d < |free| && i < |free[d]| && !Listed(spot.kind)
    ensures free[d][i].pointer in owners && owners[free[d][i].pointer] == Spot(Free(d), free[d][i].bytes)
    ensures Stored(free[d := free[d][..i] + free[d][i + 1..]], retired, owners[free[d][i].pointer := spot])
  {
    var p := free[d][i].pointer;
    assert owners[p] == Spot(Free(d), free[d][i].bytes);
    hide Lists;
    forall e | 0 <= e < |free|
      ensures e != d ==> Lists(free[e], owners[p := spot], Free(e))
      ensures Lists(retired[e], owners[p := spot], Retired(e))
    {
      if e != d { ListsOthers(free[e], owners, Free(e), p, spot); }
      ListsOthers(retired[e], owners, Retired(e), p, spot);
    }
    ListsRemove(free[d], owners, Free(d), i, spot);
  }

  lemma StoredMoved(free: seq<seq<Block>>, retired: seq<seq<Block>>, owners: Owners, d: nat)
    requires Stored(free, retired, owners) && d < |free|
    ensures Stored(free[d := free[d] + retired[d]], retired[d := []], Moved(owners, Retired(d), Free(d)))
  {
    hide Lists;
    forall e | 0 <= e < |free| && e != d
      ensures Lists(free[e], Moved(owners, Retired(d), Free(d)), Free(e))
      ensures Lists(retired[e], Moved(owners, Retired(d), Free(d)), Retired(e))
    {
      ListsMoved(free[e], owners, Free(e), Retired(d), Free(d));
      ListsMoved(retired[e], owners, Retired(e), Retired(d), Free(d));
    }
    ListsJoin(free[d], retired[d], owners, Retired(d), Free(d));
  }

  lemma StoredDropped(free: seq<seq<Block>>, retired: seq<seq<Block>>, owners: Owners, d: nat)
    requires Stored(free, retired, owners) && d < |free|
    ensures Stored(free[d := []], retired, Dropped(owners, Free(d)))
  {
    hide Lists;
    NoneDropped(owners, Free(d));
    forall e | 0 <= e < |free|
      ensures e != d ==> Lists(free[e], Dropped(owners, Free(d)), Free(e))
      ensures Lists(retired[e], Dropped(owners, Free(d)), Retired(e))
    {
      if e != d { ListsDropped(free[e], owners, Free(e), Free(d)); }
      ListsDropped(retired[e], owners, Retired(e), Free(d));
    }
  }

  lemma StoredWithout(free: seq<seq<Block>>, retired: seq<seq<Block>>, owners: Owners, p: Pointer)
    requires Stored(free, retired, owners) && (p in owners ==> !Listed(owners[p].kind))
    ensures Stored(free, retired, owners - {p})
  {
    hide Lists;
    forall d | 0 <= d < |free|
      ensures Lists(free[d], owners - {p}, Free(d)) && Lists(retired[d], owners - {p}, Retired(d))
    {
      ListsWithout(free[d], owners, Free(d), p);
      ListsWithout(retired[d], owners, Retired(d), p);
    }
  }

  lemma StoredMore(free: seq<seq<Block>>, retired: seq<seq<Block>>, owners: Owners)
    requires Stored(free, retired, owners)
    ensures Stored(free + [[]], retired + [[]], owners)
  {
    NothingListed(owners, |free|);
    hide Lists;
  }

  /** The free blocks of a device are exactly its free list. */
  lemma FreeListed(free: seq<seq<Block>>, retired: seq<seq<Block>>, owners: Owners, d: nat)
    requires Stored(free, retired, owners) && d < |free|
    ensures forall p :: p in owners && owners[p].kind == Free(d) ==> Block(owners[p].bytes, p) in free[d]
    ensures forall i :: 0 <= i < |free[d]| ==>
              free[d][i].pointer in owners && owners[free[d][i].pointer] == Spot(Free(d), free[d][i].bytes)
  {
  }

  // ---- finished work ----

  /** What is remembered of a block that was given back agrees with where it is. */
  ghost predicate Agrees(kind: Kind, p: Pointer, memory: Memory) {
    match kind
    case InUse(_) => true
    case Waiting(device, event) => p in memory && memory[p].device == device && memory[p].event == Some(event)
    case Retired(device) => p in memory && memory[p].device == device && memory[p].event == None
    case Free(device) => p in memory && memory[p].device == device
  }

  ghost predicate Remembered(owners: Owners, memory: Memory) {
    forall p :: p in owners ==> Agrees(owners[p].kind, p, memory)
  }

  /** Sizes and last uses of all allocations. */
  ghost predicate Books(owners: Owners, capacity: map<Pointer, nat>, memory: Memory, markers: nat) {
    && Recorded(owners, capacity) && Remembered(owners, memory)
    && forall p :: p in memory ==> memory[p].lastUse <= markers
  }

  /** A completed synchronization of the device had its marker behind the block's last use. */
  ghost predicate Covered(given: Given, synced: map<nat, nat>) {
    given.device in synced && given.lastUse < synced[given.device]
  }

  /** The device is through with the block: its event has completed, or a synchronization covered it. */
  ghost predicate Finished(given: Given, done: set<Event>, synced: map<nat, nat>) {
    (given.event.Some? && given.event.value in done) || Covered(given, synced)
  }

  /** No free block is still being used. */
  ghost predicate FreeIsFinished(owners: Owners, memory: Memory, done: set<Event>, synced: map<nat, nat>) {
    forall p :: p in owners && owners[p].kind.Free? ==> p in memory && Finished(memory[p], done, synced)
  }

  /** Every block of the device that no synchronization covers waits for an event that has completed. */
  ghost predicate NoneUncovered(owners: Owners, memory: Memory, done: set<Event>, synced: map<nat, nat>, device: nat) {
    forall p :: p in owners && (owners[p].kind.Waiting? || owners[p].kind.Retired?) && owners[p].kind.device == device
                && p in memory && !Covered(memory[p], synced) ==>
      owners[p].kind.Waiting? && owners[p].kind.event in done
  }

  ghost function FreedAll(owners: Owners, device: nat, completed: bool, polled: set<Event>): Owners {
    map p | p in owners :: Freed(owners[p], device, completed, polled)
  }

  ghost function ReapedAll(owners: Owners, device: nat, completed: bool, polled: set<Event>): Owners {
    map p | p in owners :: Reaped(owners[p], device, completed, polled)
  }

  /** Only blocks of the device whose event is done, or at a synchronization any it has, become free, and none of those is left. */
  ghost predicate ReapedExactly(before: Owners, after: Owners, device: nat, completed: bool, polled: set<Event>) {
    && after.Keys == before.Keys
    && (forall p :: p in after ==> after[p] == before[p] || after[p] == Spot(Free(device), before[p].bytes))
    && (forall p :: p in after && after[p] != before[p] ==>
          if before[p].kind.Waiting? then before[p].kind.device == device && (completed || before[p].kind.event in polled)
          else completed && before[p].kind == Retired(device))
    && (forall p :: p in after && after[p].kind.Waiting? && after[p].kind.device == device ==>
          !completed && after[p].kind.event !in polled)
    && (completed ==> forall p :: p in after ==> after[p].kind != Retired(device))
  }

  lemma ReapsExactly(owners: Owners, device: nat, completed: bool, polled: set<Event>)
    ensures ReapedExactly(owners, ReapedAll(owners, device, completed, polled), device, completed, polled)
  {
  }

  /** A reap frees what is ready, and then, after a synchronization, what is retired. */
  lemma ReapInTwoSteps(owners: Owners, device: nat, completed: bool, polled: set<Event>)
    ensures ReapedAll(owners, device, completed, polled)
         == var freed := FreedAll(owners, device, completed, polled);
            if completed then Moved(freed, Retired(device), Free(device)) else freed
  {
  }

  /** A block changes place; none becomes free. */
  lemma MoveKeepsBooks(owners: Owners, capacity: map<Pointer, nat>, memory: Memory, markers: nat, p: Pointer, spot: Spot,
                       done: set<Event>, synced: map<nat, nat>)
    requires Books(owners, capacity, memory, markers)
    requires p in owners && 0 < spot.bytes <= owners[p].bytes && Agrees(spot.kind, p, memory)
    ensures Books(owners[p := spot], capacity, memory, markers)
    ensures !spot.kind.Free? && FreeIsFinished(owners, memory, done, synced) ==>
              FreeIsFinished(owners[p := spot], memory, done, synced)
  {
  }

  lemma MovedKeepsBooks(owners: Owners, capacity: map<Pointer, nat>, memory: Memory, markers: nat, device: nat)
    requires Books(owners, capacity, memory, markers)
    ensures Books(Moved(owners, Retired(device), Free(device)), capacity, memory, markers)
  {
  }

  /** The books of fewer allocations, and of one more. */
  lemma PartKeepsBooks(owners: Owners, part: Owners, capacity: map<Pointer, nat>, memory: Memory, markers: nat,
                       done: set<Event>, synced: map<nat, nat>)
    requires Books(owners, capacity, memory, markers)
    requires forall p :: p in part ==> p in owners && part[p] == owners[p]
    ensures Books(part, Kept(capacity, part), memory, markers)
    ensures FreeIsFinished(owners, memory, done, synced) ==> FreeIsFinished(part, memory, done, synced)
  {
  }

  lemma MoreKeepsBooks(owners: Owners, capacity: map<Pointer, nat>, memory: Memory, markers: nat, p: Pointer,
                       device: nat, bytes: nat, done: set<Event>, synced: map<nat, nat>)
    requires Books(owners, capacity, memory, markers) && p !in owners && bytes > 0
    ensures Books(owners[p := Spot(InUse(device), bytes)], capacity[p := bytes], memory, markers)
    ensures FreeIsFinished(owners, memory, done, synced) ==>
              FreeIsFinished(owners[p := Spot(InUse(device), bytes)], memory, done, synced)
  {
  }

  /** What is remembered of a block in use does not matter until it is given back. */
  lemma RememberKeepsBooks(owners: Owners, capacity: map<Pointer, nat>, memory: Memory, markers: nat, p: Pointer,
                           given: Given, done: set<Event>, synced: map<nat, nat>)
    requires Books(owners, capacity, memory, markers) && p in owners && owners[p].kind.InUse? && given.lastUse <= markers
    ensures Books(owners, capacity, memory[p := given], markers)
    ensures FreeIsFinished(owners, memory, done, synced) ==> FreeIsFinished(owners, memory[p := given], done, synced)
  {
  }

  lemma WaitingAgrees(owners: Owners, capacity: map<Pointer, nat>, memory: Memory, markers: nat, p: Pointer)
    requires Books(owners, capacity, memory, markers) && p in owners && owners[p].kind.Waiting?
    ensures Agrees(Free(owners[p].kind.device), p, memory) && owners[p].bytes > 0
  {
  }

  /**
   A reap that asks the events is always safe. One that follows a synchronization is safe
   exactly when every block of the device that the synchronization did not cover has its
   event completed all the same.
  */
  lemma ReapIsSafeExactlyWhen(owners: Owners, memory: Memory, done: set<Event>, synced: map<nat, nat>,
                              device: nat, completed: bool, polled: set<Event>)
    requires Remembered(owners, memory) && polled <= done && FreeIsFinished(owners, memory, done, synced)
    ensures Remembered(ReapedAll(owners, device, completed, polled), memory)
    ensures FreeIsFinished(ReapedAll(owners, device, completed, polled), memory, done, synced)
            <==> !completed || NoneUncovered(owners, memory, done, synced, device)
  {
    var after := ReapedAll(owners, device, completed, polled);
    if completed && !NoneUncovered(owners, memory, done, synced, device) {
      var p :| p in owners && (owners[p].kind.Waiting? || owners[p].kind.Retired?) && owners[p].kind.device == device
               && !Covered(memory[p], synced) && !(owners[p].kind.Waiting? && owners[p].kind.event in done);
      assert after[p].kind == Free(device) && !Finished(memory[p], done, synced);
    }
  }

  /** More finished work keeps free blocks finished. */
  lemma FinishedStays(owners: Owners, memory: Memory, done: set<Event>, synced: map<nat, nat>,
                      done': set<Event>, synced': map<nat, nat>)
    requires FreeIsFinished(owners, memory, done, synced) && done <= done'
    requires forall d :: d in synced ==> d in synced' && synced[d] <= synced'[d]
    ensures FreeIsFinished(owners, memory, done', synced')
  {
  }

  // ---- the pool ----

  class DevicePool {
    var free: seq<seq<Block>>
    var retired: seq<seq<Block>>
    var pending: seq<PendingBlock>
    ghost var owners: Owners                // every live allocation, in exactly one place
    ghost var capacity: map<Pointer, nat>   // the size it was really allocated with
    ghost var memory: Memory                // how each block was last given back
    ghost var markers: seq<nat>             // the device of each synchronization marker recorded so far
    ghost var done: set<Event>              // completed events
    ghost var synced: map<nat, nat>         // the latest marker of each device whose wait has ended

    ghost predicate Valid()
      reads this
    {
      Consistent(pending)
    }

    ghost predicate Consistent(waiting: seq<PendingBlock>)
      reads this`free, this`retired, this`owners, this`capacity, this`memory, this`markers
    {
      Books(owners, capacity, memory, |markers|) && Stored(free, retired, owners) && PendingLists(waiting, owners)
    }

    /** No free block is still being used by the device. */
    ghost predicate Safe()
      reads this`owners, this`memory, this`done, this`synced
    {
      FreeIsFinished(owners, memory, done, synced)
    }

    constructor ()
      ensures Valid() && Safe() && owners == map[] && markers == [] && done == {} && synced == map[]
    {
      free, retired, pending, owners, capacity := [], [], [], map[], map[];
      memory, markers, done, synced := map[], [], {}, map[];
    }

    // ---- the device ----

    /** The device completes an event. */
    ghost method Complete(event: Event)
      requires Valid()
      modifies this`done
      ensures Valid() && done == old(done) + {event} && (old(Safe()) ==> Safe())
    {
      hide PendingLists, Stored, Books, FreeIsFinished;
      if Safe() { FinishedStays(owners, memory, done, synced, done + {event}, synced); }
      done := done + {event};
    }

    /** A synchronization records its marker on a device, behind the work enqueued so far. */
    ghost method Mark(device: nat) returns (marker: nat)
      requires Valid()
      modifies this`markers
      ensures Valid() && markers == old(markers) + [device] && marker == |markers| && (old(Safe()) ==> Safe())
    {
      hide PendingLists, Stored, Recorded, Remembered, FreeIsFinished;
      markers := markers + [device];
      marker := |markers|;
    }

    /** The wait for a marker of the device ends, outside the lock. */
    ghost method Synchronized(device: nat, marker: nat)
      requires Valid() && 0 < marker <= |markers| && markers[marker - 1] == device
      modifies this`synced
      ensures Valid() && (old(Safe()) ==> Safe())
      ensures synced == old(synced)[device := if device in old(synced) && old(synced)[device] > marker then old(synced)[device] else marker]
    {
      hide PendingLists, Stored, Books, FreeIsFinished;
      var latest := if device in synced && synced[device] > marker then synced[device] else marker;
      if Safe() { FinishedStays(owners, memory, done, synced, done, synced[device := latest]); }
      synced := synced[device := latest];
    }

    // ---- the lists ----

    /** Makes room for the lists of a device. */
    method EnsureSlots(device: nat)
      requires Valid()
      modifies this`free, this`retired
      ensures Valid() && device < |free| == |retired|
    {
      SameLength();
      hide PendingLists, Books, Stored;
      while |free| <= device
        invariant Valid() && |free| == |retired|
        decreases device + 1 - |free|
      {
        StoredMore(free, retired, owners);
        free, retired := free + [[]], retired + [[]];
      }
    }

    lemma SameLength()
      requires Valid()
      ensures |free| == |retired|
    {
    }

    /** Waiting block i becomes free. */
    method FreeOne(last: PendingBlock, ghost waiting: seq<PendingBlock>, ghost i: nat)
      requires Consistent(waiting) && i < |waiting| && last == waiting[i] && last.device < |free|
      modifies this`free, this`owners
      ensures Consistent(waiting[..i] + waiting[i + 1..]) && |free| == |old(free)|
      ensures last.block.pointer in old(owners) && old(owners)[last.block.pointer].kind.Waiting?
      ensures owners == old(owners)[last.block.pointer := Spot(Free(last.device), last.block.bytes)]
    {
      var p, spot := last.block.pointer, Spot(Free(last.device), last.block.bytes);
      assert owners[p] == Spot(Waiting(last.device, last.event), last.block.bytes);
      hide Stored, PendingLists, Books;
      WaitingAgrees(owners, capacity, memory, |markers|, p);
      MoveKeepsBooks(owners, capacity, memory, |markers|, p, spot, done, synced);
      PendingRemove(waiting, owners, i, spot);
      StoredFree(free, retired, owners, last.device, last.block);
      free := free[last.device := free[last.device] + [last.block]];
      owners := owners[p := spot];
    }

    /**
     Frees what is ready, compacting the pending list in place. After a synchronization, which
     has ended before the lock is taken, it frees everything the device's lists hold by then.
    */
    method Reap(device: nat, completed: bool, polled: set<Event>)
      requires Valid() && polled <= done
      modifies this`free, this`retired, this`pending, this`owners
      ensures Valid() && device < |free|
      ensures pending == Staying(old(pending), device, completed, polled)
      ensures owners == ReapedAll(old(owners), device, completed, polled)
      ensures ReapedExactly(old(owners), owners, device, completed, polled)
      ensures old(Safe()) ==> (Safe() <==> !completed || NoneUncovered(old(owners), memory, done, synced, device))
    {
      hide Consistent, FreeIsFinished, NoneUncovered, Staying, ReapedAll, FreedAll, Moved, ReapedExactly;
      BeforeReap(device, completed, polled);
      ReapsExactly(owners, device, completed, polled);
      ReapInTwoSteps(owners, device, completed, polled);
      EnsureSlots(device);
      FreeReady(device, completed, polled);
      if completed { FreeAllRetired(device); }
    }

    /** The compaction of the pending list. */
    method FreeReady(device: nat, completed: bool, polled: set<Event>)
      requires Valid() && device < |free|
      modifies this`free, this`pending, this`owners
      ensures Valid() && |free| == |old(free)|
      ensures pending == Staying(old(pending), device, completed, polled)
      ensures owners == FreedAll(old(owners), device, completed, polled)
    {
      hide Consistent, Staying, StillWaiting, PendingLists, Among, FreedBut, FreedAll;
      ghost var all := pending;
      WholeList(all, device, completed, polled);
      AllWaiting();
      NoneFreedYet(all, owners, device, completed, polled);
      var out, it := 0, 0;
      while it < |pending|
        invariant 0 <= out <= it <= |pending| == |all| && |free| == |old(free)|
        invariant pending[..out] == Staying(all[..it], device, completed, polled)
        invariant forall k :: it <= k < |all| ==> pending[k] == all[k]
        invariant Consistent(StillWaiting(all, it, device, completed, polled))
        invariant owners == FreedBut(old(owners), all[it..], device, completed, polled)
        modifies this`pending, this`free, this`owners
      {
        var last := pending[it];
        ExamineOne(all, it, device, completed, polled);
        FreedOneMore(all, old(owners), it, device, completed, polled);
        if Ready(last, device, completed, polled) {
          FreeOne(last, StillWaiting(all, it, device, completed, polled), out);
        } else {
          pending := pending[out := last];
          out := out + 1;
        }
        it := it + 1;
      }
      AllFreed(all, old(owners), device, completed, polled);
      pending := pending[..out];
    }

    lemma BeforeReap(device: nat, completed: bool, polled: set<Event>)
      requires Valid() && polled <= done
      ensures Safe() ==>
                (FreeIsFinished(ReapedAll(owners, device, completed, polled), memory, done, synced)
                 <==> !completed || NoneUncovered(owners, memory, done, synced, device))
    {
      hide Stored, PendingLists, Recorded;
      if Safe() { ReapIsSafeExactlyWhen(owners, memory, done, synced, device, completed, polled); }
    }

    /** After a synchronization the retired blocks that the device has by then follow the free ones. */
    method FreeAllRetired(device: nat)
      requires Valid() && device < |free| == |retired|
      modifies this`free, this`retired, this`owners
      ensures Valid() && |free| == |old(free)|
      ensures owners == Moved(old(owners), Retired(device), Free(device))
    {
      hide PendingLists, Stored, Books;
      PendingMoved(pending, owners, Retired(device), Free(device));
      StoredMoved(free, retired, owners, device);
      MovedKeepsBooks(owners, capacity, memory, |markers|, device);
      free := free[device := free[device] + retired[device]];
      retired := retired[device := []];
      owners := Moved(owners, Retired(device), Free(device));
    }

    /** Hands out the smallest free block that is large enough. */
    method TakeBestFit(device: nat, bytes: nat) returns (pointer: Option<Pointer>)
      requires Valid() && bytes > 0
      modifies this`free, this`retired, this`owners
      ensures Valid() && (old(Safe()) ==> Safe())
      ensures pointer.Some? && old(Safe()) ==> pointer.value in memory && Finished(memory[pointer.value], done, synced)
      ensures pointer.None? ==> owners == old(owners)
                                && forall p :: p in owners && owners[p].kind == Free(device) ==> owners[p].bytes < bytes
      ensures pointer.Some? ==>
                && pointer.value in old(owners) && old(owners)[pointer.value].kind == Free(device)
                && bytes <= old(owners)[pointer.value].bytes
                && (forall p :: p in old(owners) && old(owners)[p].kind == Free(device) && bytes <= old(owners)[p].bytes ==>
                      old(owners)[pointer.value].bytes <= old(owners)[p].bytes)
                && owners == old(owners)[pointer.value := Spot(InUse(device), bytes)]
    {
      hide Stored, PendingLists, Books;
      EnsureSlots(device);
      var blocks := free[device];
      var best := |blocks|;
      var it := 0;
      while it < |blocks|
        invariant 0 <= it <= |blocks| && (0 <= best < it || best == |blocks|)
        invariant best < |blocks| ==> blocks[best].bytes >= bytes
        invariant forall k :: 0 <= k < it && blocks[k].bytes >= bytes ==> best < |blocks| && blocks[best].bytes <= blocks[k].bytes
        modifies {}
      {
        if blocks[it].bytes >= bytes && (best == |blocks| || blocks[it].bytes < blocks[best].bytes) { best := it; }
        it := it + 1;
      }
      FreeListed(free, retired, owners, device);
      if best == |blocks| { return None; }
      Detach(device, best, bytes);
      pointer := Some(blocks[best].pointer);
    }

    method Detach(device: nat, best: nat, bytes: nat)
      requires Valid() && device < |free| && best < |free[device]| && 0 < bytes <= free[device][best].bytes
      modifies this`free, this`owners
      ensures Valid() && (old(Safe()) ==> Safe())
      ensures owners == old(owners)[old(free)[device][best].pointer := Spot(InUse(device), bytes)]
    {
      hide Stored, PendingLists, Books, FreeIsFinished;
      var p, spot := free[device][best].pointer, Spot(InUse(device), bytes);
      StoredTaken(free, retired, owners, device, best, spot);
      MoveKeepsBooks(owners, capacity, memory, |markers|, p, spot, done, synced);
      PendingOthers(pending, owners, p, spot);
      free := free[device := free[device][..best] + free[device][best + 1..]];
      owners := owners[p := spot];
    }

    /** The driver granted a new allocation. */
    ghost method Allocated(device: nat, bytes: nat, p: Pointer)
      requires Valid() && bytes > 0 && p !in owners
      modifies this`owners, this`capacity
      ensures Valid() && (old(Safe()) ==> Safe())
      ensures owners == old(owners)[p := Spot(InUse(device), bytes)] && capacity == old(capacity)[p := bytes]
    {
      hide Stored, PendingLists, Books, FreeIsFinished;
      var spot := Spot(InUse(device), bytes);
      MoreKeepsBooks(owners, capacity, memory, |markers|, p, device, bytes, done, synced);
      PendingOthers(pending, owners, p, spot);
      StoredElsewhere(free, retired, owners, p, spot);
      owners := owners[p := spot];
      capacity := capacity[p := bytes];
    }

    /** Gives every free block of the device up, to be returned to the driver. */
    method ReleaseFree(device: nat) returns (releasable: seq<Block>)
      requires Valid()
      modifies this`free, this`retired, this`owners, this`capacity
      ensures Valid() && (old(Safe()) ==> Safe())
      ensures owners == Dropped(old(owners), Free(device)) && Lists(releasable, old(owners), Free(device))
      ensures capacity == Kept(old(capacity), owners)
    {
      hide Stored, PendingLists, Books, FreeIsFinished, Lists, Dropped, Kept;
      EnsureSlots(device);
      releasable := free[device];
      FreeListIsExact(device);
      DroppedIsPart(owners, Free(device));
      PartKeepsBooks(owners, Dropped(owners, Free(device)), capacity, memory, |markers|, done, synced);
      PendingDropped(pending, owners, Free(device));
      StoredDropped(free, retired, owners, device);
      free := free[device := []];
      owners, capacity := Dropped(owners, Free(device)), Kept(capacity, Dropped(owners, Free(device)));
    }

    lemma FreeListIsExact(device: nat)
      requires Valid() && device < |free|
      ensures Lists(free[device], owners, Free(device))
    {
      hide Lists;
    }

    /** A buffer's block: a free one, a new one, or a new one after giving the free ones up. */
    method Allocate(device: nat, bytes: nat, polled: set<Event>, first: Option<Pointer>, second: Option<Pointer>)
      returns (buffer: Option<Pointer>)
      requires Valid() && polled <= done
      requires first.Some? ==> first.value !in owners
      requires second.Some? && second.value in owners ==>
                 Reaped(owners[second.value], device, false, polled).kind == Free(device)
      modifies this`free, this`retired, this`pending, this`owners, this`capacity
      ensures Valid() && (old(Safe()) ==> Safe())
      ensures buffer.Some? ==>
                buffer.value in owners && owners[buffer.value] == Spot(InUse(device), if bytes > 1 then bytes else 1)
      ensures buffer.Some? && buffer.value in old(owners) ==>
                Reaped(old(owners)[buffer.value], device, false, polled).kind == Free(device)
      ensures buffer.None? ==> forall p :: p in owners ==> owners[p].kind != Free(device)
      ensures forall p :: p in old(owners) && Some(p) != buffer ==>
                if p in owners then owners[p] == Reaped(old(owners)[p], device, false, polled)
                else Reaped(old(owners)[p], device, false, polled).kind == Free(device)
    {
      hide Consistent;
      var physical := if bytes > 1 then bytes else 1;
      Reap(device, false, polled);
      buffer := TakeBestFit(device, physical);
      if buffer.None? {
        buffer := first;
        if first.Some? {
          Allocated(device, physical, first.value);
        } else {
          var _ := ReleaseFree(device);
          buffer := second;
          if second.Some? { Allocated(device, physical, second.value); }
        }
      }
    }

    /**
     A buffer gives its block back, recorded with the size the buffer asked for. Its last use
     came when so many synchronization markers had been recorded; the event is behind it.
    */
    method Return(device: nat, bytes: nat, pointer: Pointer, event: Option<Event>, ghost lastUse: nat)
      requires Valid() && pointer in owners && owners[pointer] == Spot(InUse(device), if bytes > 1 then bytes else 1)
      requires lastUse <= |markers|
      modifies this`free, this`retired, this`pending, this`owners, this`memory
      ensures Valid() && (old(Safe()) ==> Safe())
      ensures var kind := if event.Some? then Waiting(device, event.value) else Retired(device);
              owners == old(owners)[pointer := Spot(kind, old(owners)[pointer].bytes)]
      ensures memory == old(memory)[pointer := Given(device, event, lastUse)]
    {
      hide Consistent, FreeIsFinished;
      EnsureSlots(device);
      var block := Block(if bytes > 1 then bytes else 1, pointer);
      Remember(pointer, Given(device, event, lastUse));
      if event.Some? { Park(device, block, event.value); } else { Retire(device, block); }
    }

    ghost method Remember(p: Pointer, given: Given)
      requires Valid() && p in owners && owners[p].kind.InUse? && given.lastUse <= |markers|
      modifies this`memory
      ensures Valid() && (old(Safe()) ==> Safe()) && memory == old(memory)[p := given]
    {
      hide Stored, PendingLists, Books, FreeIsFinished;
      RememberKeepsBooks(owners, capacity, memory, |markers|, p, given, done, synced);
      memory := memory[p := given];
    }

    /** The block waits for the event recorded behind its last use. */
    method Park(device: nat, block: Block, event: Event)
      requires Valid() && block.pointer in owners && owners[block.pointer] == Spot(InUse(device), block.bytes)
      requires block.bytes > 0 && Agrees(Waiting(device, event), block.pointer, memory)
      modifies this`pending, this`owners
      ensures Valid() && (old(Safe()) ==> Safe())
      ensures owners == old(owners)[block.pointer := Spot(Waiting(device, event), block.bytes)]
    {
      hide Stored, PendingLists, Books, FreeIsFinished;
      ghost var spot := Spot(Waiting(device, event), block.bytes);
      MoveKeepsBooks(owners, capacity, memory, |markers|, block.pointer, spot, done, synced);
      StoredElsewhere(free, retired, owners, block.pointer, spot);
      PendingAppend(pending, owners, PendingBlock(device, event, block));
      pending := pending + [PendingBlock(device, event, block)];
      owners := owners[block.pointer := spot];
    }

    /** Without an event the block waits for a synchronization. */
    method Retire(device: nat, block: Block)
      requires Valid() && block.pointer in owners && owners[block.pointer] == Spot(InUse(device), block.bytes)
      requires block.bytes > 0 && device < |free| == |retired| && Agrees(Retired(device), block.pointer, memory)
      modifies this`retired, this`owners
      ensures Valid() && (old(Safe()) ==> Safe())
      ensures owners == old(owners)[block.pointer := Spot(Retired(device), block.bytes)]
    {
      hide Stored, PendingLists, Books, FreeIsFinished;
      ghost var spot := Spot(Retired(device), block.bytes);
      MoveKeepsBooks(owners, capacity, memory, |markers|, block.pointer, spot, done, synced);
      PendingOthers(pending, owners, block.pointer, spot);
      StoredRetired(free, retired, owners, device, block);
      retired := retired[device := retired[device] + [block]];
      owners := owners[block.pointer := spot];
    }

    /**
     Putting the block away found no memory. For deferred work its event, or the device, is
     waited for before the driver gets the block back; otherwise the block is lost to the pool,
     in use for good.
    */
    method ReturnWithoutMemory(device: nat, pointer: Pointer, event: Option<Event>, deferred: bool, ghost lastUse: nat)
      requires Valid() && pointer in owners && owners[pointer].kind == InUse(device) && lastUse <= |markers|
      modifies this`owners, this`capacity, this`done, this`markers, this`synced
      ensures Valid() && (old(Safe()) ==> Safe())
      ensures owners == if deferred then old(owners) - {pointer} else old(owners)
      ensures deferred ==> Finished(Given(device, event, lastUse), done, synced)
    {
      hide Consistent, FreeIsFinished;
      if deferred {
        WaitFor(device, event, lastUse);
        Forget(pointer);
      }
    }

    /** Waits for the event behind a block's last use, or else for the device. */
    ghost method WaitFor(device: nat, event: Option<Event>, lastUse: nat)
      requires Valid() && lastUse <= |markers|
      modifies this`done, this`markers, this`synced
      ensures Valid() && (old(Safe()) ==> Safe()) && Finished(Given(device, event, lastUse), done, synced)
    {
      hide Consistent, FreeIsFinished;
      if event.Some? {
        Complete(event.value);
      } else {
        var marker := Mark(device);
        Synchronized(device, marker);
      }
    }

    /** The driver gets a block in use back. */
    ghost method Forget(pointer: Pointer)
      requires Valid() && pointer in owners && owners[pointer].kind.InUse?
      modifies this`owners, this`capacity
      ensures Valid() && (old(Safe()) ==> Safe()) && owners == old(owners) - {pointer}
    {
      hide Stored, PendingLists, Books, FreeIsFinished;
      PartKeepsBooks(owners, owners - {pointer}, capacity, memory, |markers|, done, synced);
      StoredWithout(free, retired, owners, pointer);
      PendingWithout(pending, owners, pointer);
      owners := owners - {pointer};
      capacity := Kept(capacity, owners);
    }

    /** Without another thread between its steps, a synchronization and its reap are safe. */
    method SynchronizeAndReap(device: nat)
      requires Valid() && Safe()
      modifies this`free, this`retired, this`pending, this`owners, this`markers, this`synced
      ensures Valid() && Safe()
      ensures owners == ReapedAll(old(owners), device, true, {})
    {
      ghost var marker := Mark(device);
      Synchronized(device, marker);
      AllCovered(device);
      Reap(device, true, {});
    }

    lemma AllCovered(device: nat)
      requires Valid() && device in synced && synced[device] >= |markers|
      requires forall p :: p in memory ==> memory[p].lastUse < |markers|
      ensures NoneUncovered(owners, memory, done, synced, device)
    {
      hide Stored, PendingLists;
    }

    lemma AllWaiting()
      requires Valid()
      ensures PendingLists(pending, owners)
    {
    }
  }

  /** Everything ready is free except what is still to be examined. */
  ghost function FreedBut(owners: Owners, rest: seq<PendingBlock>, device: nat, completed: bool, polled: set<Event>): Owners {
    map p | p in owners :: if Among(rest, p) then owners[p] else Freed(owners[p], device, completed, polled)
  }

  lemma NoneFreedYet(pending: seq<PendingBlock>, owners: Owners, device: nat, completed: bool, polled: set<Event>)
    requires PendingLists(pending, owners)
    ensures FreedBut(owners, pending[0..], device, completed, polled) == owners
  {
    assert pending[0..] == pending;
  }

  lemma FreedOneMore(pending: seq<PendingBlock>, owners: Owners, n: nat, device: nat, completed: bool, polled: set<Event>)
    requires n < |pending| && PendingLists(pending, owners)
    ensures var before, after := FreedBut(owners, pending[n..], device, completed, polled),
                                 FreedBut(owners, pending[n + 1..], device, completed, polled);
            after == if Ready(pending[n], device, completed, polled)
                     then before[pending[n].block.pointer := Spot(Free(device), pending[n].block.bytes)] else before
  {
    SuffixAmong(pending, owners, n);
    hide PendingLists, Among;
  }

  lemma AllFreed(pending: seq<PendingBlock>, owners: Owners, device: nat, completed: bool, polled: set<Event>)
    ensures FreedBut(owners, pending[|pending|..], device, completed, polled) == FreedAll(owners, device, completed, polled)
  {
  }

  lemma SuffixAmong(pending: seq<PendingBlock>, owners: Owners, n: nat)
    requires n < |pending| && PendingLists(pending, owners)
    ensures var p := pending[n].block.pointer;
            && p in owners && owners[p] == Spot(Waiting(pending[n].device, pending[n].event), pending[n].block.bytes)
            && !Among(pending[n + 1..], p)
    ensures forall p :: Among(pending[n..], p) <==> p == pending[n].block.pointer || Among(pending[n + 1..], p)
  {
    assert pending[n..] == [pending[n]] + pending[n + 1..];
  }

  lemma NothingListed(owners: Owners, d: nat)
    requires forall p :: p in owners && (owners[p].kind.Free? || owners[p].kind.Retired?) ==> owners[p].kind.device < d
    ensures Lists([], owners, Free(d)) && Lists([], owners, Retired(d))
  {
  }

  /**
   The interleaving that is not safe: another thread uses a block and gives it back between a
   synchronization's marker and its reap. The block is then free while the device may still
   be using it.
  */
  method FreeBeforeFinished(device: nat, event: Event) returns (pool: DevicePool)
    ensures pool.Valid() && 0 in pool.owners && pool.owners[0].kind == Free(device)
    ensures 0 in pool.memory && !Finished(pool.memory[0], pool.done, pool.synced)
  {
    hide DevicePool.Consistent, FreeIsFinished, NoneUncovered, Staying;
    pool := new DevicePool();
    pool.Allocated(device, 1, 0);
    ghost var marker := pool.Mark(device);
    pool.Return(device, 1, 0, Some(event), marker);
    pool.Synchronized(device, marker);
    pool.Reap(device, true, {});
  }
}
