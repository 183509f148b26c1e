/**
 * Deferred GPU validation: status words handed out from shared pages, checks that wait for
 * their device work, and consumers that count checks and recycle whole pages. Every method is
 * one section under the state lock (or one device action outside it), so any interleaving of
 * threads is some sequence of these calls.
 */
module ValidationPages {
  import opened Options

  const SLOTS_PER_PAGE: nat := 4096

  datatype Page = Page(device: int, used: nat, consumed: nat, abandoned: nat, recycling: bool)

  datatype Slot = Slot(page: nat, index: nat)

  /** A queued check; one without a slot has a status buffer of its own. */
  datatype Check = Check(device: int, slot: Option<Slot>, serial: nat, consumed: bool)
  {
    predicate Open() { slot.Some? && !consumed }
    predicate CoveredBy(onDevice: int, covered: nat) { device == onDevice && serial <= covered }
  }

  /** The private state of one consumer: the checks it took and the pages it is clearing. */
  datatype Batch = Batch(device: int, local: seq<Check>, recycle: seq<Option<nat>>)

  /**
   Where a handed-out slot is: with the caller, waiting, with a consumer, or done with. A slot
   is lost when its page handed it out but no memory was left for the view, or when the view
   was given up but no memory was left to queue its check.
  */
  datatype Place = Viewed | Queued | Held(batch: nat) | Consumed | Abandoned | Lost
  {
    predicate Live() { Viewed? || Queued? || Held? }
    predicate Settled() { Consumed? || Abandoned? }
    predicate Owed() { Queued? || Held? }
  }

  type Places = map<Slot, Place>

  // ---- pages ----

  ghost function At(places: Places, page: nat, place: Place): set<Slot> {
    set a | a in places && a.page == page && places[a] == place
  }

  ghost function LiveOn(places: Places, page: nat): set<Slot> {
    set a | a in places && a.page == page && places[a].Live()
  }

  /** The handed-out slots of a page are its first ones, and it counts the finished ones. */
  ghost predicate Addresses(pages: seq<Page>, places: Places) {
    && (forall p :: 0 <= p < |pages| ==> pages[p].used <= SLOTS_PER_PAGE)
    && (forall a :: a in places ==> a.page < |pages| && a.index < pages[a.page].used)
    && (forall p: nat, i: nat :: p < |pages| && i < pages[p].used ==> Slot(p, i) in places)
  }

  ghost predicate Tallies(pages: seq<Page>, places: Places) {
    forall p :: 0 <= p < |pages| ==>
      pages[p].consumed == |At(places, p, Consumed)| && pages[p].abandoned == |At(places, p, Abandoned)|
  }

  /** Every slot of a page that is being cleared is consumed or abandoned. */
  ghost predicate Idle(pages: seq<Page>, places: Places) {
    forall a :: a in places && a.page < |pages| && pages[a.page].recycling ==> places[a].Settled()
  }

  ghost predicate Arena(pages: seq<Page>, places: Places) {
    Addresses(pages, places) && Tallies(pages, places) && Idle(pages, places)
  }

  ghost function FirstSlots(page: nat, n: nat): (slots: set<Slot>)
    ensures |slots| == n && forall a :: a in slots <==> a.page == page && a.index < n
  {
    if n == 0 then {} else FirstSlots(page, n - 1) + {Slot(page, n - 1)}
  }

  /** Every slot a page has handed out is live, consumed, abandoned or lost. */
  lemma Balance(pages: seq<Page>, places: Places, p: nat)
    requires Addresses(pages, places) && Tallies(pages, places) && p < |pages|
    ensures pages[p].used == |LiveOn(places, p)| + pages[p].consumed + pages[p].abandoned + |At(places, p, Lost)|
  {
    FirstSlotsHandedOut(pages, places, p);
    SlotsSplit(places, p);
    SizeOfThree(LiveOn(places, p), At(places, p, Consumed), At(places, p, Abandoned));
    SizeOfThree(LiveOn(places, p) + At(places, p, Consumed) + At(places, p, Abandoned), At(places, p, Lost), {});
  }

  /** A page's own count of its slots adds up exactly when it has lost none. */
  lemma BalanceExactlyWhen(pages: seq<Page>, places: Places, p: nat)
    requires Addresses(pages, places) && Tallies(pages, places) && p < |pages|
    ensures pages[p].used == |LiveOn(places, p)| + pages[p].consumed + pages[p].abandoned
            <==> forall a :: a in places && a.page == p ==> !places[a].Lost?
  {
    Balance(pages, places, p);
    if a :| a in places && a.page == p && places[a].Lost? {
      assert a in At(places, p, Lost);
    } else {
      assert At(places, p, Lost) == {};
    }
  }

  /** A page has handed out slots, and each of them is consumed or abandoned. */
  ghost predicate AllSettled(places: Places, p: nat) {
    && (exists a :: a in places && a.page == p)
    && forall a :: a in places && a.page == p ==> places[a].Consumed? || places[a].Abandoned?
  }

  /** The counts of a page say when that is so. */
  lemma AllSettledExactlyWhen(pages: seq<Page>, places: Places, p: nat)
    requires Addresses(pages, places) && Tallies(pages, places) && p < |pages|
    ensures AllSettled(places, p) <==> pages[p].used != 0 && pages[p].used == pages[p].consumed + pages[p].abandoned
  {
    Balance(pages, places, p);
    if pages[p].used > 0 { assert Slot(p, 0) in places; }
    forall a | a in places && a.page == p
      ensures a in LiveOn(places, p) || a in At(places, p, Lost) || places[a].Consumed? || places[a].Abandoned?
    {
    }
    if forall a :: a in places && a.page == p ==> places[a].Consumed? || places[a].Abandoned? {
      NoneUnsettled(places, p);
    }
  }

  lemma NoneUnsettled(places: Places, p: nat)
    requires forall a :: a in places && a.page == p ==> places[a].Consumed? || places[a].Abandoned?
    ensures LiveOn(places, p) == {} && At(places, p, Lost) == {}
  {
  }

  /** A consumer of the device may clear this page: every slot it handed out is done with. */
  predicate Done(page: Page, device: int) {
    page.device == device && page.used != 0 && !page.recycling && page.used == page.consumed + page.abandoned
  }

  /** The done ones among the first n pages are being cleared. */
  ghost function Claimed(pages: seq<Page>, n: nat, device: int): seq<Page> {
    seq(|pages|, p requires 0 <= p < |pages| =>
      pages[p].(recycling := pages[p].recycling || (p < n && Done(pages[p], device))))
  }

  lemma ClaimOne(pages: seq<Page>, n: nat, device: int)
    requires n < |pages|
    ensures |Claimed(pages, n, device)| == |pages| && Claimed(pages, n, device)[n] == pages[n]
    ensures Claimed(pages, n + 1, device)
         == if Done(pages[n], device) then Claimed(pages, n, device)[n := pages[n].(recycling := true)]
            else Claimed(pages, n, device)
  {
  }

  /** Consumer b clears more pages, and nothing else about the consumers is new. */
  ghost predicate RecycleMore(before: seq<Batch>, after: seq<Batch>, b: nat) {
    && b < |before| == |after|
    && (forall c :: 0 <= c < |after| && c != b ==> after[c] == before[c])
    && after[b].local == before[b].local && after[b].device == before[b].device
  }

  lemma RecycleNone(batches: seq<Batch>, b: nat)
    requires b < |batches|
    ensures RecycleMore(batches, batches, b)
  {
  }

  lemma RecycleOne(before: seq<Batch>, after: seq<Batch>, b: nat, p: nat)
    requires RecycleMore(before, after, b)
    ensures b < |after| && after[b].device == before[b].device
    ensures RecycleMore(before, after[b := after[b].(recycle := after[b].recycle + [Some(p)])], b)
  {
  }

  ghost predicate DoneAreSettled(pages: seq<Page>, places: Places, device: int) {
    forall p: nat :: p < |pages| ==>
      (Done(pages[p], device) <==> pages[p].device == device && !pages[p].recycling && AllSettled(places, p))
  }

  lemma AllClaimed(pages: seq<Page>, device: int, places: Places)
    requires DoneAreSettled(pages, places, device)
    ensures |Claimed(pages, |pages|, device)| == |pages|
    ensures forall p: nat :: p < |pages| ==>
              var done := pages[p].device == device && AllSettled(places, p);
              Claimed(pages, |pages|, device)[p] == pages[p].(recycling := pages[p].recycling || done)
  {
    hide Done, AllSettled;
  }

  lemma ClaimNone(pages: seq<Page>, device: int)
    ensures Claimed(pages, 0, device) == pages
  {
  }

  /** Lost slots stay lost. */
  ghost predicate LostStay(before: Places, after: Places) {
    forall a :: a in before && before[a].Lost? ==> a in after && after[a].Lost?
  }

  ghost function SlotsOn(places: Places, page: nat): set<Slot> {
    set a | a in places && a.page == page
  }

  lemma FirstSlotsHandedOut(pages: seq<Page>, places: Places, p: nat)
    requires Addresses(pages, places) && p < |pages|
    ensures |SlotsOn(places, p)| == pages[p].used
  {
    forall a: Slot
      ensures a in FirstSlots(p, pages[p].used) <==> a in SlotsOn(places, p)
    {
      assert a == Slot(a.page, a.index);
    }
    hide SlotsOn, FirstSlots, Addresses;
    assert SlotsOn(places, p) == FirstSlots(p, pages[p].used);
  }

  lemma SlotsSplit(places: Places, p: nat)
    ensures SlotsOn(places, p)
         == LiveOn(places, p) + At(places, p, Consumed) + At(places, p, Abandoned) + At(places, p, Lost)
    ensures LiveOn(places, p) !! At(places, p, Consumed) !! At(places, p, Abandoned) !! At(places, p, Lost)
  {
    forall a: Slot
      ensures a in SlotsOn(places, p) <==>
              a in LiveOn(places, p) || a in At(places, p, Consumed) || a in At(places, p, Abandoned) || a in At(places, p, Lost)
    {
    }
  }

  lemma DoneKeepsArena(pages: seq<Page>, places: Places, p: nat)
    requires Arena(pages, places) && p < |pages| && pages[p].used == pages[p].consumed + pages[p].abandoned
    ensures LiveOn(places, p) == {} && At(places, p, Lost) == {}
    ensures Arena(pages[p := pages[p].(recycling := true)], places)
  {
    Balance(pages, places, p);
    forall a | a in places && a.page == p
      ensures places[a].Settled()
    {
      assert a !in LiveOn(places, p) && a !in At(places, p, Lost);
    }
  }

  lemma SizeOfThree<T>(a: set<T>, b: set<T>, c: set<T>)
    requires a !! b && a !! c && b !! c
    ensures |a + b + c| == |a| + |b| + |c|
  {
    assert |a + b| == |a| + |b| && (a + b) !! c;
  }

  function Tallied(page: Page, place: Place): Page {
    match place
    case Consumed => page.(consumed := page.consumed + 1)
    case Abandoned => page.(abandoned := page.abandoned + 1)
    case _ => page
  }

  /** A live slot changes place. */
  lemma MoveKeepsArena(pages: seq<Page>, places: Places, a: Slot, place: Place)
    requires Arena(pages, places) && a in places && places[a].Live()
    ensures a.page < |pages| && !pages[a.page].recycling
    ensures Arena(pages[a.page := Tallied(pages[a.page], place)], places[a := place])
  {
    hide At;
    var pages' := pages[a.page := Tallied(pages[a.page], place)];
    forall p | 0 <= p < |pages'|
      ensures pages'[p].consumed == |At(places[a := place], p, Consumed)|
      ensures pages'[p].abandoned == |At(places[a := place], p, Abandoned)|
    {
      AtAfterMove(places, a, place, p, Consumed);
      AtAfterMove(places, a, place, p, Abandoned);
    }
  }

  lemma AtAfterMove(places: Places, a: Slot, to: Place, p: nat, final: Place)
    requires a in places && places[a] != final
    ensures |At(places[a := to], p, final)| == |At(places, p, final)| + if p == a.page && to == final then 1 else 0
  {
    assert At(places[a := to], p, final) == At(places, p, final) + if p == a.page && to == final then {a} else {};
  }

  /** A page hands out its next slot. */
  lemma HandOutKeepsArena(pages: seq<Page>, places: Places, p: nat, place: Place)
    requires Arena(pages, places) && p < |pages| && !pages[p].recycling && pages[p].used < SLOTS_PER_PAGE
    requires !place.Settled()
    ensures Slot(p, pages[p].used) !in places
    ensures Arena(pages[p := pages[p].(used := pages[p].used + 1)], places[Slot(p, pages[p].used) := place])
  {
    var a := Slot(p, pages[p].used);
    HandOutAddresses(pages, places, p, place);
    forall q | 0 <= q < |pages|
      ensures At(places[a := place], q, Consumed) == At(places, q, Consumed)
      ensures At(places[a := place], q, Abandoned) == At(places, q, Abandoned)
    {
      AtWithNew(places, a, place, q);
    }
    hide Addresses, At;
  }

  lemma HandOutAddresses(pages: seq<Page>, places: Places, p: nat, place: Place)
    requires Addresses(pages, places) && p < |pages| && pages[p].used < SLOTS_PER_PAGE
    ensures Slot(p, pages[p].used) !in places
    ensures Addresses(pages[p := pages[p].(used := pages[p].used + 1)], places[Slot(p, pages[p].used) := place])
  {
  }

  lemma AtWithNew(places: Places, a: Slot, place: Place, q: nat)
    requires a !in places && !place.Settled()
    ensures At(places[a := place], q, Consumed) == At(places, q, Consumed)
    ensures At(places[a := place], q, Abandoned) == At(places, q, Abandoned)
  {
  }

  lemma NewPageKeepsArena(pages: seq<Page>, places: Places, device: int)
    requires Arena(pages, places)
    ensures Arena(pages + [Page(device, 0, 0, 0, false)], places)
  {
    assert At(places, |pages|, Consumed) == {} == At(places, |pages|, Abandoned);
  }

  ghost function Without(places: Places, p: nat): Places {
    map a | a in places && a.page != p :: places[a]
  }

  /** A page whose slots are all done with starts over. */
  lemma ResetKeepsArena(pages: seq<Page>, places: Places, p: nat)
    requires Arena(pages, places) && p < |pages| && pages[p].recycling
    ensures Arena(pages[p := Page(pages[p].device, 0, 0, 0, false)], Without(places, p))
    ensures forall a :: a in places && !places[a].Settled() ==> a in Without(places, p)
  {
    ResetAddresses(pages, places, p);
    ResetTallies(pages, places, p);
    hide Addresses, Tallies;
  }

  lemma ResetAddresses(pages: seq<Page>, places: Places, p: nat)
    requires Addresses(pages, places) && p < |pages|
    ensures Addresses(pages[p := Page(pages[p].device, 0, 0, 0, false)], Without(places, p))
  {
  }

  lemma ResetTallies(pages: seq<Page>, places: Places, p: nat)
    requires Tallies(pages, places) && p < |pages|
    ensures Tallies(pages[p := Page(pages[p].device, 0, 0, 0, false)], Without(places, p))
  {
    hide At, Without;
    WithoutOnPage(places, p);
    forall q | 0 <= q < |pages| && q != p
      ensures At(Without(places, p), q, Consumed) == At(places, q, Consumed)
      ensures At(Without(places, p), q, Abandoned) == At(places, q, Abandoned)
    {
      WithoutElsewhere(places, p, q);
    }
  }

  lemma WithoutOnPage(places: Places, p: nat)
    ensures At(Without(places, p), p, Consumed) == {} == At(Without(places, p), p, Abandoned)
  {
  }

  lemma WithoutElsewhere(places: Places, p: nat, q: nat)
    requires q != p
    ensures At(Without(places, p), q, Consumed) == At(places, q, Consumed)
    ensures At(Without(places, p), q, Abandoned) == At(places, q, Abandoned)
  {
  }

  lemma UnclaimKeepsArena(pages: seq<Page>, places: Places, p: nat)
    requires Arena(pages, places) && p < |pages|
    ensures Arena(pages[p := pages[p].(recycling := false)], places)
  {
  }

  // ---- lists of checks ----

  /** The open checks of a list are, one each, the slots at a place. */
  ghost predicate Lists(checks: seq<Check>, places: Places, place: Place) {
    && (forall i :: 0 <= i < |checks| && checks[i].Open() ==>
          checks[i].slot.value in places && places[checks[i].slot.value] == place)
    && (forall i, j :: 0 <= i < j < |checks| && checks[i].Open() && checks[j].Open() ==> checks[i].slot != checks[j].slot)
    && (forall a :: a in places && places[a] == place ==> Mentions(checks, a))
  }

  ghost predicate Mentions(checks: seq<Check>, a: Slot) {
    exists i :: 0 <= i < |checks| && checks[i].Open() && checks[i].slot == Some(a)
  }

  lemma ListsOthers(checks: seq<Check>, places: Places, place: Place, a: Slot, to: Place)
    requires Lists(checks, places, place) && to != place && (a in places ==> places[a] != place)
    ensures Lists(checks, places[a := to], place)
  {
  }

  lemma ListsWithout(checks: seq<Check>, places: Places, place: Place, p: nat)
    requires Lists(checks, places, place) && forall a :: a in places && a.page == p ==> places[a] != place
    ensures Lists(checks, Without(places, p), place)
  {
  }

  lemma ListsAppend(checks: seq<Check>, places: Places, place: Place, check: Check)
    requires Lists(checks, places, place)
    requires check.Open() ==> check.slot.value in places && places[check.slot.value] != place
    ensures Lists(checks + [check], if check.Open() then places[check.slot.value := place] else places, place)
  {
    var after := checks + [check];
    forall a | Mentions(checks, a)
      ensures Mentions(after, a)
    {
      var i :| 0 <= i < |checks| && checks[i].Open() && checks[i].slot == Some(a);
      assert after[i].Open();
    }
    assert check.Open() ==> after[|checks|].Open() && Mentions(after, check.slot.value);
  }

  /** Check i leaves the list: its slot goes elsewhere. */
  lemma ListsRemove(checks: seq<Check>, places: Places, place: Place, i: nat, to: Place)
    requires Lists(checks, places, place) && i < |checks| && to != place
    ensures Lists(checks[..i] + checks[i + 1..],
                  if checks[i].Open() then places[checks[i].slot.value := to] else places, place)
  {
    var after := checks[..i] + checks[i + 1..];
    forall a | Mentions(checks, a) && !(checks[i].Open() && checks[i].slot == Some(a))
      ensures Mentions(after, a)
    {
      var j :| 0 <= j < |checks| && checks[j].Open() && checks[j].slot == Some(a);
      assert after[if j < i then j else j - 1].Open();
    }
  }

  /** Check i is counted: it is open no more. */
  lemma ListsClose(checks: seq<Check>, places: Places, place: Place, i: nat, to: Place)
    requires Lists(checks, places, place) && i < |checks| && checks[i].Open() && to != place
    ensures Lists(checks[i := checks[i].(consumed := true)], places[checks[i].slot.value := to], place)
  {
    var after := checks[i := checks[i].(consumed := true)];
    forall a | Mentions(checks, a) && checks[i].slot != Some(a)
      ensures Mentions(after, a)
    {
      var j :| 0 <= j < |checks| && checks[j].Open() && checks[j].slot == Some(a);
      assert after[j].Open();
    }
  }

  /** Every consumer holds exactly the slots of its open checks. */
  ghost predicate Holding(batches: seq<Batch>, places: Places) {
    && (forall b :: 0 <= b < |batches| ==> Lists(batches[b].local, places, Held(b)))
    && (forall a :: a in places && places[a].Held? ==> places[a].batch < |batches|)
  }

  lemma HoldingOthers(batches: seq<Batch>, places: Places, a: Slot, to: Place)
    requires Holding(batches, places) && !to.Held? && (a in places ==> !places[a].Held?)
    ensures Holding(batches, places[a := to])
  {
    forall b | 0 <= b < |batches|
      ensures Lists(batches[b].local, places[a := to], Held(b))
    {
      ListsOthers(batches[b].local, places, Held(b), a, to);
    }
  }

  /** The checks a synchronization covers, and the others, in order. */
  ghost function Covered(checks: seq<Check>, device: int, covered: nat): seq<Check> {
    if checks == [] then []
    else
      var last := checks[|checks| - 1];
      Covered(checks[..|checks| - 1], device, covered) + if last.device == device && last.serial <= covered then [last] else []
  }

  ghost function Left(checks: seq<Check>, device: int, covered: nat): seq<Check> {
    if checks == [] then []
    else
      var last := checks[|checks| - 1];
      Left(checks[..|checks| - 1], device, covered) + if last.device == device && last.serial <= covered then [] else [last]
  }

  /** Taken are the checks of the device up to the serial, left are all others. */
  lemma {:induction false} CoveredExactlyWhen(checks: seq<Check>, device: int, covered: nat, check: Check)
    ensures check in Covered(checks, device, covered) <==> check in checks && check.device == device && check.serial <= covered
    ensures check in Left(checks, device, covered) <==> check in checks && (check.device != device || check.serial > covered)
  {
    if checks != [] {
      var before, last := checks[..|checks| - 1], checks[|checks| - 1];
      CoveredExactlyWhen(before, device, covered, check);
      InOneMore(before, last, check);
      InOneMore(Covered(before, device, covered), last, check);
      InOneMore(Left(before, device, covered), last, check);
      assert checks == before + [last];
    }
  }

  lemma InOneMore<T>(s: seq<T>, last: T, x: T)
    ensures x in s + [last] <==> x in s || x == last
  {
  }

  /** The checks still waiting when the first n have been examined. */
  ghost function Waiting(checks: seq<Check>, n: nat, device: int, covered: nat): seq<Check>
    requires n <= |checks|
  {
    Left(checks[..n], device, covered) + checks[n..]
  }

  lemma ExamineOne(checks: seq<Check>, n: nat, device: int, covered: nat)
    requires n < |checks|
    ensures var out := |Left(checks[..n], device, covered)|;
            var waiting, next := Waiting(checks, n, device, covered), Waiting(checks, n + 1, device, covered);
            if checks[n].CoveredBy(device, covered)
            then
              && out < |waiting| && waiting[out] == checks[n] && next == waiting[..out] + waiting[out + 1..]
              && Left(checks[..n + 1], device, covered) == Left(checks[..n], device, covered)
              && Covered(checks[..n + 1], device, covered) == Covered(checks[..n], device, covered) + [checks[n]]
            else
              && next == waiting
              && Left(checks[..n + 1], device, covered) == Left(checks[..n], device, covered) + [checks[n]]
              && Covered(checks[..n + 1], device, covered) == Covered(checks[..n], device, covered)
  {
    assert checks[..n + 1][..n] == checks[..n];
  }

  ghost predicate FirstCovered(checks: seq<Check>, i: nat, device: int, covered: nat) {
    && i < |checks| && checks[i].device == device && checks[i].serial <= covered
    && forall k :: 0 <= k < i && checks[k].device == device ==> checks[k].serial > covered
  }

  lemma MentionsAppend(checks: seq<Check>, check: Check, a: Slot)
    ensures Mentions(checks + [check], a) <==> Mentions(checks, a) || (check.Open() && check.slot == Some(a))
  {
    var after := checks + [check];
    if Mentions(checks, a) {
      var i :| 0 <= i < |checks| && checks[i].Open() && checks[i].slot == Some(a);
      assert after[i].Open();
    }
    if check.Open() && check.slot == Some(a) { assert after[|checks|].Open(); }
  }

  lemma HoldingNewBatch(batches: seq<Batch>, places: Places, batch: Batch)
    requires Holding(batches, places) && batch.local == []
    ensures Holding(batches + [batch], places)
  {
  }

  /** A waiting check passes to consumer b. */
  lemma HoldingAppend(batches: seq<Batch>, places: Places, b: nat, check: Check)
    requires Holding(batches, places) && b < |batches|
    requires check.Open() ==> check.slot.value in places && places[check.slot.value] == Queued
    ensures Holding(batches[b := batches[b].(local := batches[b].local + [check])],
                    if check.Open() then places[check.slot.value := Held(b)] else places)
  {
    hide Lists;
    ListsAppend(batches[b].local, places, Held(b), check);
    if check.Open() {
      forall c | 0 <= c < |batches| && c != b
        ensures Lists(batches[c].local, places[check.slot.value := Held(b)], Held(c))
      {
        ListsOthers(batches[c].local, places, Held(c), check.slot.value, Held(b));
      }
    }
  }

  /** Consumer b counts its open check i. */
  lemma HoldingClose(batches: seq<Batch>, places: Places, b: nat, i: nat)
    requires Holding(batches, places) && b < |batches| && i < |batches[b].local| && batches[b].local[i].Open()
    ensures batches[b].local[i].slot.value in places && places[batches[b].local[i].slot.value] == Held(b)
    ensures Holding(batches[b := batches[b].(local := batches[b].local[i := batches[b].local[i].(consumed := true)])],
                    places[batches[b].local[i].slot.value := Consumed])
  {
    ListsClose(batches[b].local, places, Held(b), i, Consumed);
    var a := batches[b].local[i].slot.value;
    assert places[a] == Held(b);
    forall c | 0 <= c < |batches| && c != b
      ensures Lists(batches[c].local, places[a := Consumed], Held(c))
    {
      ListsOthers(batches[c].local, places, Held(c), a, Consumed);
    }
  }

  // ---- claims on pages being cleared ----

  /** A recycling page is claimed by exactly one entry of one consumer. */
  ghost predicate Claims(pages: seq<Page>, batches: seq<Batch>, claimant: map<nat, nat>) {
    && Recycling(pages, claimant) && Listed(batches, claimant) && Owned(batches, claimant)
    && (forall b :: 0 <= b < |batches| ==> Distinct(batches[b].recycle))
  }

  ghost predicate Recycling(pages: seq<Page>, claimant: map<nat, nat>) {
    forall p :: p in claimant <==> 0 <= p < |pages| && pages[p].recycling
  }

  ghost predicate Listed(batches: seq<Batch>, claimant: map<nat, nat>) {
    forall p :: p in claimant ==> claimant[p] < |batches| && Some(p) in batches[claimant[p]].recycle
  }

  ghost predicate Owned(batches: seq<Batch>, claimant: map<nat, nat>) {
    forall b, k :: 0 <= b < |batches| && 0 <= k < |batches[b].recycle| && batches[b].recycle[k].Some? ==>
      batches[b].recycle[k].value in claimant && claimant[batches[b].recycle[k].value] == b
  }

  ghost predicate Distinct(recycle: seq<Option<nat>>) {
    forall k, l :: 0 <= k < l < |recycle| && recycle[k].Some? ==> recycle[k] != recycle[l]
  }

  /** Changes that neither start nor end a claim. */
  lemma ClaimsUnaffected(pages: seq<Page>, batches: seq<Batch>, claimant: map<nat, nat>, pages': seq<Page>, batches': seq<Batch>)
    requires Claims(pages, batches, claimant)
    requires |pages| <= |pages'| && |batches| <= |batches'|
    requires forall p :: 0 <= p < |pages'| ==> pages'[p].recycling == (p < |pages| && pages[p].recycling)
    requires forall b :: 0 <= b < |batches'| ==> batches'[b].recycle == if b < |batches| then batches[b].recycle else []
    ensures Claims(pages', batches', claimant)
  {
  }

  lemma StartClaim(pages: seq<Page>, batches: seq<Batch>, claimant: map<nat, nat>, p: nat, b: nat)
    requires Claims(pages, batches, claimant) && p < |pages| && b < |batches| && !pages[p].recycling
    ensures Claims(pages[p := pages[p].(recycling := true)],
                   batches[b := batches[b].(recycle := batches[b].recycle + [Some(p)])], claimant[p := b])
  {
    var recycle' := batches[b].recycle + [Some(p)];
    assert recycle'[|recycle'| - 1] == Some(p);
    forall q | q in claimant
      ensures q != p && Some(q) in batches[b := batches[b].(recycle := recycle')][claimant[q]].recycle
    {
    }
  }

  lemma ClaimedPage(pages: seq<Page>, batches: seq<Batch>, claimant: map<nat, nat>, b: nat, k: nat)
    requires Claims(pages, batches, claimant) && b < |batches| && k < |batches[b].recycle|
    requires batches[b].recycle[k].Some?
    ensures batches[b].recycle[k].value < |pages| && pages[batches[b].recycle[k].value].recycling
    ensures batches[b].recycle[k].value in claimant && claimant[batches[b].recycle[k].value] == b
  {
  }

  lemma EndClaim(pages: seq<Page>, batches: seq<Batch>, claimant: map<nat, nat>, b: nat, k: nat, page: Page)
    requires Claims(pages, batches, claimant) && b < |batches| && k < |batches[b].recycle|
    requires batches[b].recycle[k].Some? && !page.recycling
    ensures batches[b].recycle[k].value < |pages| && pages[batches[b].recycle[k].value].recycling
    ensures Claims(pages[batches[b].recycle[k].value := page],
                   batches[b := batches[b].(recycle := batches[b].recycle[k := None])],
                   claimant - {batches[b].recycle[k].value})
  {
    ClaimedPage(pages, batches, claimant, b, k);
    EndListed(batches, claimant, b, k);
    EndOwned(batches, claimant, b, k);
    hide Listed, Owned;
  }

  lemma EndListed(batches: seq<Batch>, claimant: map<nat, nat>, b: nat, k: nat)
    requires Listed(batches, claimant) && b < |batches| && k < |batches[b].recycle| && batches[b].recycle[k].Some?
    ensures Listed(batches[b := batches[b].(recycle := batches[b].recycle[k := None])], claimant - {batches[b].recycle[k].value})
  {
    var p, recycle' := batches[b].recycle[k].value, batches[b].recycle[k := None];
    forall q | q in claimant && q != p
      ensures Some(q) in batches[b := batches[b].(recycle := recycle')][claimant[q]].recycle
    {
      if claimant[q] == b {
        var l :| 0 <= l < |batches[b].recycle| && batches[b].recycle[l] == Some(q);
        assert recycle'[l] == Some(q);
      }
    }
  }

  lemma EndOwned(batches: seq<Batch>, claimant: map<nat, nat>, b: nat, k: nat)
    requires Owned(batches, claimant) && b < |batches| && k < |batches[b].recycle| && batches[b].recycle[k].Some?
    requires Distinct(batches[b].recycle)
    ensures Owned(batches[b := batches[b].(recycle := batches[b].recycle[k := None])], claimant - {batches[b].recycle[k].value})
  {
    var p, recycle := batches[b].recycle[k].value, batches[b].recycle;
    forall l | 0 <= l < |recycle| && l != k && recycle[l].Some?
      ensures recycle[l].value != p
    {
      assert if l < k then recycle[l] != recycle[k] else recycle[k] != recycle[l];
    }
  }

  lemma StillHolding(batches: seq<Batch>, batches': seq<Batch>, places: Places)
    requires Holding(batches, places) && |batches'| == |batches|
    requires forall b :: 0 <= b < |batches| ==> batches'[b].local == batches[b].local
    ensures Holding(batches', places)
  {
    hide Lists;
  }

  /** Forgetting a page without live slots changes no list of checks. */
  lemma WithoutKeepsChecks(pending: seq<Check>, batches: seq<Batch>, places: Places, p: nat)
    requires Lists(pending, places, Queued) && Holding(batches, places)
    requires forall a :: a in places && a.page == p ==> !places[a].Live()
    ensures Lists(pending, Without(places, p), Queued) && Holding(batches, Without(places, p))
    ensures Owed(Without(places, p)) == Owed(places)
  {
    ListsWithout(pending, places, Queued, p);
    forall b | 0 <= b < |batches|
      ensures Lists(batches[b].local, Without(places, p), Held(b))
    {
      ListsWithout(batches[b].local, places, Held(b), p);
    }
  }

  // ---- device memory and totals ----

  /** Words outside the handed-out slots, and those of a cleared page, are zero (absent). */
  ghost predicate Clean(places: Places, words: map<Slot, nat>, claimant: map<nat, nat>, cleared: set<nat>) {
    && words.Keys <= places.Keys && cleared <= claimant.Keys
    && forall a :: a in words ==> a.page !in cleared
  }

  ghost function Owed(places: Places): set<Slot> {
    set a | a in places && places[a].Owed()
  }

  lemma OwedAfterMove(places: Places, a: Slot, to: Place)
    ensures |Owed(places[a := to])|
         == |Owed(places)| - (if a in places && places[a].Owed() then 1 else 0) + (if to.Owed() then 1 else 0)
  {
    var owed, owed' := Owed(places), Owed(places[a := to]);
    assert a in owed' <==> to.Owed();
    SizeButOne(owed, owed', a);
  }

  lemma SizeButOne<T>(s: set<T>, t: set<T>, x: T)
    requires forall y :: y != x ==> (y in s <==> y in t)
    ensures |t| == |s| - (if x in s then 1 else 0) + (if x in t then 1 else 0)
  {
    assert s - {x} == t - {x};
    assert |s| == |s - {x}| + if x in s then 1 else 0;
    assert |t| == |t - {x}| + if x in t then 1 else 0;
  }

  // ---- the shared state ----

  class ValidationState {
    var pages: seq<Page>
    var pending: seq<Check>
    var batches: seq<Batch>            // the consumers so far; each is touched by its own thread only
    ghost var places: Places
    ghost var words: map<Slot, nat>    // the nonzero status words in device memory
    ghost var claimant: map<nat, nat>  // the consumer clearing each recycling page
    ghost var cleared: set<nat>        // claimed pages whose clearing has succeeded
    ghost var deferred: nat            // checks with a slot deferred so far
    ghost var counted: nat             // checks counted consumed so far

    ghost predicate Valid()
      reads this
    {
      Consistent(pending)
    }

    /** The state is sound when the waiting checks are the given ones. */
    ghost predicate Consistent(waiting: seq<Check>)
      reads this`pages, this`batches, this`places, this`words, this`claimant, this`cleared, this`deferred, this`counted
    {
      && Arena(pages, places)
      && Lists(waiting, places, Queued) && (forall i :: 0 <= i < |waiting| ==> !waiting[i].consumed)
      && Holding(batches, places)
      && Claims(pages, batches, claimant)
      && Clean(places, words, claimant, cleared)
      && deferred == counted + |Owed(places)|
    }

    constructor ()
      ensures Valid() && places == map[] && words == map[]
    {
      pages, pending, batches := [], [], [];
      places, words, claimant, cleared, deferred, counted := map[], map[], map[], {}, 0, 0;
    }

    /** A slot handed out: it was in nobody's hands, and its word is zero. */
    twostate predicate HandedOut(device: int, a: Slot, place: Place)
      reads this
    {
      && a !in old(places) && places == old(places)[a := place] && a !in words
      && a.page < |pages| && pages[a.page].device == device && !pages[a.page].recycling
    }

    /**
     The first section of an acquisition: the first page with room. Its next slot is taken
     before the view is allocated; without memory for the view the slot is lost.
    */
    method Acquire(device: int, memory: bool) returns (slot: Option<Slot>)
      requires Valid()
      modifies this`pages, this`places
      ensures Valid() && LostStay(old(places), places)
      ensures slot.Some? ==> HandedOut(device, slot.value, if memory then Viewed else Lost) && |pages| == |old(pages)|
      ensures slot.None? ==> pages == old(pages) && places == old(places)
      ensures slot.None? ==> forall p :: 0 <= p < |pages| && pages[p].device == device && !pages[p].recycling ==>
                                pages[p].used == SLOTS_PER_PAGE
    {
      hide Lists, Holding, Claims, Tallies, Idle;
      var i := 0;
      while i < |pages|
        invariant 0 <= i <= |pages|
        invariant forall p :: 0 <= p < i && pages[p].device == device && !pages[p].recycling ==>
                    pages[p].used == SLOTS_PER_PAGE
        modifies {}
      {
        if pages[i].device == device && !pages[i].recycling && pages[i].used < SLOTS_PER_PAGE { break; }
        i := i + 1;
      }
      if i == |pages| { return None; }
      var a := HandOut(i, memory);
      slot := Some(a);
    }

    /** The next slot of a page. */
    method HandOut(p: nat, memory: bool) returns (a: Slot)
      requires Valid() && p < |pages| && !pages[p].recycling && pages[p].used < SLOTS_PER_PAGE
      modifies this`pages, this`places
      ensures Valid() && LostStay(old(places), places)
      ensures HandedOut(old(pages)[p].device, a, if memory then Viewed else Lost)
      ensures a == Slot(p, old(pages)[p].used) && |pages| == |old(pages)|
      ensures pages[p] == old(pages)[p].(used := old(pages)[p].used + 1)
    {
      hide Arena, Lists, Holding, Claims;
      a := Slot(p, pages[p].used);
      ghost var place := if memory then Viewed else Lost;
      HandOutKeepsArena(pages, places, p, place);
      ListsOthers(pending, places, Queued, a, place);
      HoldingOthers(batches, places, a, place);
      OwedAfterMove(places, a, place);
      ClaimsUnaffected(pages, batches, claimant, pages[p := pages[p].(used := pages[p].used + 1)], batches);
      pages := pages[p := pages[p].(used := pages[p].used + 1)];
      places := places[a := place];
    }

    /** The second section, after a page was allocated and zeroed outside the lock. */
    method AcquireOnNewPage(device: int, memory: bool) returns (slot: Slot)
      requires Valid()
      modifies this`pages, this`places
      ensures Valid() && LostStay(old(places), places)
      ensures HandedOut(device, slot, if memory then Viewed else Lost)
      ensures slot == Slot(|old(pages)|, 0) && |pages| == |old(pages)| + 1
    {
      hide Arena, Lists, Holding, Claims;
      NewPageKeepsArena(pages, places, device);
      ClaimsUnaffected(pages, batches, claimant, pages + [Page(device, 0, 0, 0, false)], batches);
      pages := pages + [Page(device, 0, 0, 0, false)];
      slot := HandOut(|pages| - 1, memory);
    }

    /** A page that has lost a slot is never done, so no consumer ever clears it. */
    lemma LostSlotBlocksPage(a: Slot, device: int)
      requires Valid() && a in places && places[a].Lost?
      ensures a.page < |pages| && !pages[a.page].recycling && !Done(pages[a.page], device)
    {
      hide Lists, Holding, Claims;
      Balance(pages, places, a.page);
      assert a in At(places, a.page, Lost);
    }

    /** A launch that failed gives its view up. */
    method Abandon(view: Slot)
      requires Valid() && view in places && places[view] == Viewed
      modifies this`pages, this`places
      ensures Valid() && places == old(places)[view := Abandoned] && LostStay(old(places), places)
    {
      hide Arena, Lists, Holding, Claims;
      MoveKeepsArena(pages, places, view, Abandoned);
      ListsOthers(pending, places, Queued, view, Abandoned);
      HoldingOthers(batches, places, view, Abandoned);
      OwedAfterMove(places, view, Abandoned);
      ghost var pages' := pages[view.page := Tallied(pages[view.page], Abandoned)];
      ClaimsUnaffected(pages, batches, claimant, pages', batches);
      pages := pages[view.page := pages[view.page].(abandoned := pages[view.page].abandoned + 1)];
      places := places[view := Abandoned];
    }

    /**
     Queues a check; a view it owns becomes its slot. The caller has given the view up by then,
     so without memory for the check nobody holds its slot any more.
    */
    method Defer(device: int, view: Option<Slot>, serial: nat, memory: bool)
      requires Valid() && (view.Some? ==> view.value in places && places[view.value] == Viewed)
      modifies this`pending, this`places, this`deferred
      ensures Valid() && LostStay(old(places), places)
      ensures pending == if memory then old(pending) + [Check(device, view, serial, false)] else old(pending)
      ensures view.None? ==> places == old(places) && deferred == old(deferred)
      ensures view.Some? ==> places == old(places)[view.value := if memory then Queued else Lost]
      ensures view.Some? ==> deferred == old(deferred) + if memory then 1 else 0
    {
      hide Arena, Lists, Holding, Claims;
      if !memory {
        if view.Some? { Lose(view.value); }
        return;
      }
      ListsAppend(pending, places, Queued, Check(device, view, serial, false));
      pending := pending + [Check(device, view, serial, false)];
      if view.Some? {
        MoveKeepsArena(pages, places, view.value, Queued);
        HoldingOthers(batches, places, view.value, Queued);
        OwedAfterMove(places, view.value, Queued);
        ClaimsUnaffected(pages, batches, claimant, pages, batches);
        assert pages[view.value.page := pages[view.value.page]] == pages;
        places := places[view.value := Queued];
        deferred := deferred + 1;
      }
    }

    /** A viewed slot is dropped without a word to its page. */
    ghost method Lose(view: Slot)
      requires Valid() && view in places && places[view] == Viewed
      modifies this`places
      ensures Valid() && LostStay(old(places), places) && places == old(places)[view := Lost]
    {
      hide Arena, Lists, Holding, Claims;
      MoveKeepsArena(pages, places, view, Lost);
      ListsOthers(pending, places, Queued, view, Lost);
      HoldingOthers(batches, places, view, Lost);
      OwedAfterMove(places, view, Lost);
      ClaimsUnaffected(pages, batches, claimant, pages, batches);
      assert pages[view.page := pages[view.page]] == pages;
      places := places[view := Lost];
    }

    /** A kernel reports through the word of a view or of a queued check. */
    ghost method Report(a: Slot, status: nat)
      requires Valid() && a in places && (places[a] == Viewed || places[a] == Queued)
      modifies this`words
      ensures Valid() && words == old(words)[a := status]
    {
      hide Lists, Holding, Addresses, Tallies;
      MoveKeepsArena(pages, places, a, places[a]);
      words := words[a := status];
    }

    // ---- consumers ----

    /** The slot of a check a consumer takes is held by that consumer. */
    ghost predicate TakenBy(before: Places, b: nat, local: seq<Check>)
      reads this`places
    {
      && places.Keys == before.Keys
      && forall a :: a in places ==> places[a] == if Mentions(local, a) then Held(b) else before[a]
    }

    /** Opens a consumer without checks. */
    method OpenBatch(device: int)
      requires Valid()
      modifies this`batches
      ensures Valid() && batches == old(batches) + [Batch(device, [], [])]
    {
      hide Arena, Lists, Holding, Clean, Owed;
      HoldingNewBatch(batches, places, Batch(device, [], []));
      ClaimsUnaffected(pages, batches, claimant, pages, batches + [Batch(device, [], [])]);
      batches := batches + [Batch(device, [], [])];
    }

    /** Hands a waiting check, the i-th, to consumer b. */
    method TakeOne(b: nat, check: Check, ghost waiting: seq<Check>, ghost i: nat)
      requires Consistent(waiting) && b < |batches| && i < |waiting| && check == waiting[i]
      modifies this`batches, this`places
      ensures Consistent(waiting[..i] + waiting[i + 1..]) && !check.consumed
      ensures batches == old(batches)[b := old(batches)[b].(local := old(batches)[b].local + [check])]
      ensures places == if check.slot.Some? then old(places)[check.slot.value := Held(b)] else old(places)
      ensures check.slot.Some? ==> check.slot.value in old(places) && old(places)[check.slot.value] == Queued
    {
      hide Arena, Lists, Holding, Claims, Owed;
      OpenIsQueued(waiting, places, Queued, i);
      ListsRemove(waiting, places, Queued, i, Held(b));
      HoldingAppend(batches, places, b, check);
      ClaimsUnaffected(pages, batches, claimant, pages, batches[b := batches[b].(local := batches[b].local + [check])]);
      if check.slot.Some? {
        ghost var a := check.slot.value;
        MoveKeepsArena(pages, places, a, Held(b));
        assert pages[a.page := pages[a.page]] == pages;
        OwedAfterMove(places, a, Held(b));
        places := places[a := Held(b)];
      }
      batches := batches[b := batches[b].(local := batches[b].local + [check])];
    }

    /** Takes every check the synchronization covered, compacting the rest in place. */
    method Take(device: int, covered: nat) returns (b: nat)
      requires Valid()
      modifies this`pending, this`batches, this`places
      ensures Valid() && b == |old(batches)|
      ensures pending == Left(old(pending), device, covered)
      ensures batches == old(batches) + [Batch(device, Covered(old(pending), device, covered), [])]
      ensures TakenBy(old(places), b, batches[b].local) && LostStay(old(places), places)
      ensures forall check :: check in batches[b].local
                <==> check in old(pending) && check.device == device && check.serial <= covered
      ensures forall check :: check in pending
                <==> check in old(pending) && (check.device != device || check.serial > covered)
    {
      hide Consistent, Covered, Left, Waiting, Check.CoveredBy;
      b := |batches|;
      ghost var all := pending;
      OpenBatch(device);
      NothingTaken(all, device, covered);
      var out, it := 0, 0;
      while it < |pending|
        invariant 0 <= out <= it <= |pending| == |all| && |batches| == b + 1
        invariant batches == old(batches) + [Batch(device, Covered(all[..it], device, covered), [])]
        invariant pending[..out] == Left(all[..it], device, covered) && forall k :: it <= k < |all| ==> pending[k] == all[k]
        invariant Consistent(Waiting(all, it, device, covered)) && TakenBy(old(places), b, batches[b].local)
        invariant LostStay(old(places), places)
      {
        var check := pending[it];
        ExamineOne(all, it, device, covered);
        if check.CoveredBy(device, covered) {
          ghost var local := batches[b].local;
          forall a ensures Mentions(local + [check], a) <==> Mentions(local, a) || (check.Open() && check.slot == Some(a)) {
            MentionsAppend(local, check, a);
          }
          TakeOne(b, check, Waiting(all, it, device, covered), out);
        } else {
          pending := pending[out := check];
          out := out + 1;
        }
        it := it + 1;
      }
      assert all[..it] == all;
      AllTaken(all, device, covered);
      forall check
        ensures check in Covered(all, device, covered) <==> check in all && check.device == device && check.serial <= covered
        ensures check in Left(all, device, covered) <==> check in all && (check.device != device || check.serial > covered)
      {
        CoveredExactlyWhen(all, device, covered, check);
      }
      pending := pending[..out];
    }

    /** With no memory for a batch, covered checks are taken one at a time, the first one first. */
    method TakeFirst(device: int, covered: nat) returns (taken: Option<nat>)
      requires Valid()
      modifies this`pending, this`batches, this`places
      ensures Valid() && LostStay(old(places), places)
      ensures taken.None? ==>
                && pending == old(pending) && batches == old(batches) && places == old(places)
                && forall i :: 0 <= i < |pending| && pending[i].device == device ==> pending[i].serial > covered
      ensures taken.Some? ==>
                && taken.value == |old(batches)|
                && exists i: nat :: i < |old(pending)| && FirstCovered(old(pending), i, device, covered)
                     && pending == old(pending)[..i] + old(pending)[i + 1..]
                     && batches == old(batches) + [Batch(device, [old(pending)[i]], [])]
                     && TakenBy(old(places), taken.value, [old(pending)[i]])
    {
      hide Consistent;
      var i := 0;
      while i < |pending| && !pending[i].CoveredBy(device, covered)
        invariant 0 <= i <= |pending| && forall k :: 0 <= k < i ==> !pending[k].CoveredBy(device, covered)
        modifies {}
      {
        i := i + 1;
      }
      if i == |pending| { return None; }
      var b, check := |batches|, pending[i];
      OpenBatch(device);
      forall a ensures Mentions([check], a) <==> (check.Open() && check.slot == Some(a)) {
        MentionsAppend([], check, a);
        assert [] + [check] == [check];
      }
      TakeOne(b, check, pending, i);
      pending := pending[..i] + pending[i + 1..];
      taken := Some(b);
      assert [] + [check] == [check] && batches == old(batches) + [Batch(device, [check], [])];
      assert FirstCovered(old(pending), i, device, covered);
    }

    /** Counts one check of consumer b as consumed. */
    method Count(b: nat, i: nat)
      requires Valid() && b < |batches| && i < |batches[b].local| && batches[b].local[i].Open()
      modifies this`pages, this`batches, this`places, this`counted
      ensures Valid() && counted == old(counted) + 1 && LostStay(old(places), places)
      ensures |batches| == |old(batches)| && |pages| == |old(pages)|
      ensures forall c :: 0 <= c < |batches| && c != b ==> batches[c] == old(batches)[c]
      ensures batches[b] == old(batches)[b].(local := old(batches)[b].local[i := old(batches)[b].local[i].(consumed := true)])
      ensures var a := old(batches)[b].local[i].slot.value;
              a in old(places) && old(places)[a] == Held(b) && places == old(places)[a := Consumed]
    {
      hide Arena, Lists, Holding, Claims;
      var check := batches[b].local[i];
      var a := check.slot.value;
      HoldingClose(batches, places, b, i);
      MoveKeepsArena(pages, places, a, Consumed);
      ListsOthers(pending, places, Queued, a, Consumed);
      OwedAfterMove(places, a, Consumed);
      ghost var pages' := pages[a.page := Tallied(pages[a.page], Consumed)];
      ghost var batches' := batches[b := batches[b].(local := batches[b].local[i := check.(consumed := true)])];
      ClaimsUnaffected(pages, batches, claimant, pages', batches');
      pages := pages[a.page := pages[a.page].(consumed := pages[a.page].consumed + 1)];
      batches := batches[b := batches[b].(local := batches[b].local[i := check.(consumed := true)])];
      places := places[a := Consumed];
      counted := counted + 1;
    }

    /** Counts every check of consumer b that has a slot. */
    method MarkConsumed(b: nat)
      requires Valid() && b < |batches| && forall i :: 0 <= i < |batches[b].local| ==> !batches[b].local[i].consumed
      modifies this`pages, this`batches, this`places, this`counted
      ensures Valid() && |batches| == |old(batches)| && |batches[b].local| == |old(batches)[b].local|
      ensures LostStay(old(places), places)
      ensures forall c :: 0 <= c < |batches| && c != b ==> batches[c] == old(batches)[c]
      ensures batches[b].device == old(batches)[b].device && batches[b].recycle == old(batches)[b].recycle
      ensures forall i :: 0 <= i < |batches[b].local| ==>
                batches[b].local[i] == old(batches)[b].local[i].(consumed := batches[b].local[i].slot.Some?)
      ensures places.Keys == old(places).Keys
      ensures forall a :: a in places ==> places[a] == if old(places)[a] == Held(b) then Consumed else old(places)[a]
    {
      hide Consistent;
      var i := 0;
      while i < |batches[b].local|
        invariant |batches| == |old(batches)| && 0 <= i <= |batches[b].local| == |old(batches)[b].local| && Valid()
        invariant forall c :: 0 <= c < |batches| && c != b ==> batches[c] == old(batches)[c]
        invariant batches[b].device == old(batches)[b].device && batches[b].recycle == old(batches)[b].recycle
        invariant forall k :: 0 <= k < |batches[b].local| ==>
                    batches[b].local[k] == old(batches)[b].local[k].(consumed := k < i && old(batches)[b].local[k].slot.Some?)
        invariant places.Keys == old(places).Keys
        invariant forall a :: a in places ==> places[a] == old(places)[a] || (old(places)[a] == Held(b) && places[a] == Consumed)
      {
        if batches[b].local[i].slot.Some? { Count(b, i); }
        i := i + 1;
      }
      NothingHeld(b);
    }

    /** A consumer without open checks holds no slot. */
    lemma NothingHeld(b: nat)
      requires Valid() && b < |batches| && forall i :: 0 <= i < |batches[b].local| ==> !batches[b].local[i].Open()
      ensures forall a :: a in places ==> places[a] != Held(b)
    {
      hide Arena, Claims, Clean, Owed;
    }

    lemma DoneExactlyWhen(device: int)
      requires Valid()
      ensures DoneAreSettled(pages, places, device)
    {
      hide Lists, Holding, Claims, Idle, AllSettled;
      forall p: nat | p < |pages|
        ensures AllSettled(places, p) <==> pages[p].used != 0 && pages[p].used == pages[p].consumed + pages[p].abandoned
      {
        AllSettledExactlyWhen(pages, places, p);
      }
    }

    /** Claims every page of the consumer's device whose slots are all done with. */
    method ClaimDonePages(b: nat)
      requires Valid() && b < |batches|
      modifies this`pages, this`batches, this`claimant
      ensures Valid() && |pages| == |old(pages)| && RecycleMore(old(batches), batches, b)
      ensures forall p: nat :: p < |pages| ==>
                var done := old(pages)[p].device == batches[b].device && AllSettled(places, p);
                pages[p] == old(pages)[p].(recycling := old(pages)[p].recycling || done)
    {
      hide Consistent, AllSettled, Done, Claimed, DoneAreSettled, RecycleMore;
      ghost var device, all, before := batches[b].device, pages, batches;
      DoneExactlyWhen(device);
      ClaimNone(all, device);
      RecycleNone(before, b);
      var i := 0;
      while i < |pages|
        invariant 0 <= i <= |pages| == |all| && Valid() && places == old(places)
        invariant RecycleMore(before, batches, b) && pages == Claimed(all, i, device)
      {
        ClaimOne(all, i, device);
        RecycleOne(before, batches, b, i);
        if Done(pages[i], batches[b].device) { Claim(b, i); }
        i := i + 1;
      }
      RecycleOne(before, batches, b, 0);
      AllClaimed(all, device, places);
    }

    method Claim(b: nat, p: nat)
      requires Valid() && b < |batches| && p < |pages| && Done(pages[p], batches[b].device)
      modifies this`pages, this`batches, this`claimant
      ensures Valid() && LiveOn(places, p) == {}
      ensures pages == old(pages)[p := old(pages)[p].(recycling := true)]
      ensures batches == old(batches)[b := old(batches)[b].(recycle := old(batches)[b].recycle + [Some(p)])]
    {
      hide Addresses, Tallies, Lists, Claims, Owed;
      DoneKeepsArena(pages, places, p);
      StartClaim(pages, batches, claimant, p, b);
      StillHolding(batches, batches[b := batches[b].(recycle := batches[b].recycle + [Some(p)])], places);
      pages := pages[p := pages[p].(recycling := true)];
      batches := batches[b := batches[b].(recycle := batches[b].recycle + [Some(p)])];
      claimant := claimant[p := b];
    }

    /** Zeroes a claimed page outside the lock: no live slot's word is touched. */
    ghost method Clear(b: nat, k: nat)
      requires Valid() && b < |batches| && k < |batches[b].recycle| && batches[b].recycle[k].Some?
      modifies this`words, this`cleared
      ensures Valid() && LiveOn(places, batches[b].recycle[k].value) == {}
      ensures cleared == old(cleared) + {batches[b].recycle[k].value}
      ensures forall a :: a in words <==> a in old(words) && a.page != batches[b].recycle[k].value
      ensures forall a :: a in words ==> words[a] == old(words)[a]
    {
      hide Addresses, Tallies, Lists, Holding, Owed;
      var p := batches[b].recycle[k].value;
      words := map a | a in words && a.page != p :: words[a];
      cleared := cleared + {p};
    }

    /** Ends a claim: a page that was cleared starts over, another one waits for a later consumer. */
    method FinishRecycle(b: nat, k: nat, ok: bool)
      requires Valid() && b < |batches| && k < |batches[b].recycle| && batches[b].recycle[k].Some?
      requires ok ==> batches[b].recycle[k].value in cleared
      modifies this`pages, this`batches, this`places, this`claimant, this`cleared
      ensures Valid() && cleared == old(cleared) - {old(batches)[b].recycle[k].value} && LostStay(old(places), places)
      ensures batches == old(batches)[b := old(batches)[b].(recycle := old(batches)[b].recycle[k := None])]
      ensures var p := old(batches)[b].recycle[k].value;
              && p < |old(pages)|
              && pages == old(pages)[p := if ok then Page(old(pages)[p].device, 0, 0, 0, false)
                                          else old(pages)[p].(recycling := false)]
              && places == if ok then Without(old(places), p) else old(places)
    {
      hide Addresses, Tallies, Lists, Owed, Claims, Holding;
      ClaimedPage(pages, batches, claimant, b, k);
      var p := batches[b].recycle[k].value;
      var page := if ok then Page(pages[p].device, 0, 0, 0, false) else pages[p].(recycling := false);
      var batches' := batches[b := batches[b].(recycle := batches[b].recycle[k := None])];
      EndClaim(pages, batches, claimant, b, k, page);
      StillHolding(batches, batches', places);
      if ok {
        ResetKeepsArena(pages, places, p);
        WithoutKeepsChecks(pending, batches', places, p);
        places := Without(places, p);
      } else {
        UnclaimKeepsArena(pages, places, p);
      }
      pages := pages[p := page];
      batches := batches';
      claimant := claimant - {p};
      cleared := cleared - {p};
    }

    /** After an allocation failure a consumer lets go of the pages it still claims. */
    method ReleaseClaims(b: nat)
      requires Valid() && b < |batches|
      modifies this`pages, this`batches, this`places, this`claimant, this`cleared
      ensures Valid() && places == old(places) && |pages| == |old(pages)| && |batches| == |old(batches)|
      ensures forall c :: 0 <= c < |batches| && c != b ==> batches[c] == old(batches)[c]
      ensures batches[b].local == old(batches)[b].local
      ensures forall k :: 0 <= k < |batches[b].recycle| ==> batches[b].recycle[k] == None
      ensures forall p :: 0 <= p < |pages| ==> pages[p] == old(pages)[p].(recycling := pages[p].recycling)
    {
      hide Consistent;
      var k := 0;
      while k < |batches[b].recycle|
        invariant |pages| == |old(pages)| && |batches| == |old(batches)|
        invariant 0 <= k <= |batches[b].recycle| && Valid() && places == old(places)
        invariant forall c :: 0 <= c < |batches| && c != b ==> batches[c] == old(batches)[c]
        invariant batches[b].local == old(batches)[b].local
        invariant forall l :: 0 <= l < k ==> batches[b].recycle[l] == None
        invariant forall p :: 0 <= p < |pages| ==> pages[p] == old(pages)[p].(recycling := pages[p].recycling)
        decreases |batches[b].recycle| - k
      {
        if batches[b].recycle[k].Some? { FinishRecycle(b, k, false); }
        k := k + 1;
      }
    }

    /**
     After an allocation failure anywhere behind its section of taking checks, a consumer lets
     go of its pages and counts every check it has not counted yet.
    */
    method RetireAll(b: nat)
      requires Valid() && b < |batches|
      modifies this`pages, this`batches, this`places, this`claimant, this`cleared, this`counted
      ensures Valid() && |batches| == |old(batches)| && |pages| == |old(pages)| && LostStay(old(places), places)
      ensures forall c :: 0 <= c < |batches| && c != b ==> batches[c] == old(batches)[c]
      ensures forall k :: 0 <= k < |batches[b].recycle| ==> batches[b].recycle[k] == None
      ensures |batches[b].local| == |old(batches)[b].local|
      ensures forall i :: 0 <= i < |batches[b].local| ==>
                batches[b].local[i] == old(batches)[b].local[i].(consumed := batches[b].local[i].consumed)
                && !batches[b].local[i].Open()
      ensures places.Keys == old(places).Keys
      ensures forall a :: a in places ==> places[a] == if old(places)[a] == Held(b) then Consumed else old(places)[a]
    {
      hide Consistent;
      ReleaseClaims(b);
      ghost var recycle := batches[b].recycle;
      var i := 0;
      while i < |batches[b].local|
        invariant |batches| == |old(batches)| && 0 <= i <= |batches[b].local| == |old(batches)[b].local| && Valid()
        invariant |pages| == |old(pages)| && batches[b].recycle == recycle
        invariant forall c :: 0 <= c < |batches| && c != b ==> batches[c] == old(batches)[c]
        invariant forall k :: 0 <= k < |batches[b].local| ==>
                    batches[b].local[k] == old(batches)[b].local[k].(consumed := batches[b].local[k].consumed)
        invariant forall k :: 0 <= k < i ==> !batches[b].local[k].Open()
        invariant places.Keys == old(places).Keys
        invariant forall a :: a in places ==> places[a] == old(places)[a] || (old(places)[a] == Held(b) && places[a] == Consumed)
      {
        if batches[b].local[i].Open() { Count(b, i); }
        i := i + 1;
      }
      NothingHeld(b);
    }

    // ---- a consumer's two ways to count what it covers ----

    /** Every covered check has been counted, the other slots are where they were. */
    ghost predicate Settled(before: Places, checks: seq<Check>, device: int, covered: nat)
      reads this`places
    {
      && places.Keys == before.Keys
      && forall a :: a in places ==> places[a] == if Mentions(Covered(checks, device, covered), a) then Consumed else before[a]
    }

    /** The usual way: one batch. */
    method CountBatch(device: int, covered: nat) returns (b: nat)
      requires Valid()
      modifies this`pending, this`pages, this`batches, this`places, this`counted
      ensures Valid() && b < |batches| && pending == Left(old(pending), device, covered)
      ensures Settled(old(places), old(pending), device, covered)
    {
      hide Arena, Lists, Claims, Clean, Owed, Covered, Left, Mentions;
      NothingHeldByNewcomers();
      CoveredUnconsumed(pending, device, covered);
      b := Take(device, covered);
      hide Consistent;
      MarkConsumed(b);
    }

    /** Without memory for the batch: one check after the other, with the same outcome. */
    method CountOneByOne(device: int, covered: nat)
      requires Valid()
      modifies this`pending, this`pages, this`batches, this`places, this`counted
      ensures Valid() && pending == Left(old(pending), device, covered)
      ensures Settled(old(places), old(pending), device, covered)
    {
      hide Consistent, Covered, Left, Mentions, FirstCovered;
      ghost var done: seq<Check> := [];
      forall a ensures !Mentions([], a) { MentionsNothing(a); }
      while true
        invariant Valid() && Left(pending, device, covered) == Left(old(pending), device, covered)
        invariant Covered(old(pending), device, covered) == done + Covered(pending, device, covered)
        invariant places.Keys == old(places).Keys
        invariant forall a :: a in places ==> places[a] == if Mentions(done, a) then Consumed else old(places)[a]
        modifies this`pending, this`pages, this`batches, this`places, this`counted
        decreases |pending|
      {
        ghost var waiting, before := pending, places;
        var taken := TakeFirst(device, covered);
        if taken.None? {
          NoneCovered(pending, device, covered);
          assert done + [] == done;
          break;
        }
        ghost var i: nat :| i < |waiting| && FirstCovered(waiting, i, device, covered)
                            && pending == waiting[..i] + waiting[i + 1..]
                            && batches[taken.value].local == [waiting[i]]
                            && TakenBy(before, taken.value, [waiting[i]]);
        ghost var check := waiting[i];
        WithoutFirst(waiting, i, device, covered);
        MentionsNext(done, check);
        if batches[taken.value].local[0].Open() { Count(taken.value, 0); }
        done := done + [check];
      }
    }

    lemma NothingHeldByNewcomers()
      requires Valid()
      ensures forall a :: a in places ==> places[a] != Held(|batches|)
      ensures forall i :: 0 <= i < |pending| ==> !pending[i].consumed
    {
    }
  }

  lemma MentionsNothing(a: Slot)
    ensures !Mentions([], a)
  {
  }

  lemma MentionsNext(checks: seq<Check>, check: Check)
    ensures forall a :: Mentions([check], a) <==> check.Open() && check.slot == Some(a)
    ensures forall a :: Mentions(checks + [check], a) <==> Mentions(checks, a) || (check.Open() && check.slot == Some(a))
  {
    forall a
      ensures Mentions([check], a) <==> check.Open() && check.slot == Some(a)
      ensures Mentions(checks + [check], a) <==> Mentions(checks, a) || (check.Open() && check.slot == Some(a))
    {
      MentionsNothing(a);
      MentionsAppend([], check, a);
      MentionsAppend(checks, check, a);
      assert [] + [check] == [check];
    }
  }

  lemma {:induction false} CoveredUnconsumed(checks: seq<Check>, device: int, covered: nat)
    requires forall i :: 0 <= i < |checks| ==> !checks[i].consumed
    ensures forall i :: 0 <= i < |Covered(checks, device, covered)| ==> !Covered(checks, device, covered)[i].consumed
  {
    if checks != [] { CoveredUnconsumed(checks[..|checks| - 1], device, covered); }
  }

  /** One more check at the end. */
  lemma OneMore(checks: seq<Check>, last: Check, device: int, covered: nat)
    ensures Covered(checks + [last], device, covered)
         == Covered(checks, device, covered) + if last.device == device && last.serial <= covered then [last] else []
    ensures Left(checks + [last], device, covered)
         == Left(checks, device, covered) + if last.device == device && last.serial <= covered then [] else [last]
  {
    assert (checks + [last])[..|checks|] == checks;
  }

  lemma {:induction false} NoneCovered(checks: seq<Check>, device: int, covered: nat)
    requires forall i :: 0 <= i < |checks| && checks[i].device == device ==> checks[i].serial > covered
    ensures Covered(checks, device, covered) == [] && Left(checks, device, covered) == checks
  {
    if checks != [] {
      var before, last := checks[..|checks| - 1], checks[|checks| - 1];
      NoneCovered(before, device, covered);
      OneMore(before, last, device, covered);
      hide Covered, Left;
      assert checks == before + [last];
    }
  }

  /** Taking out the first covered check takes the first one off the covered list. */
  lemma {:induction false} WithoutFirst(checks: seq<Check>, i: nat, device: int, covered: nat)
    requires FirstCovered(checks, i, device, covered)
    ensures Left(checks[..i] + checks[i + 1..], device, covered) == Left(checks, device, covered)
    ensures Covered(checks, device, covered) == [checks[i]] + Covered(checks[..i] + checks[i + 1..], device, covered)
  {
    hide Covered, Left;
    var n := |checks| - 1;
    var before, last := checks[..n], checks[n];
    assert checks == before + [last];
    if i == n {
      assert checks[..i] + checks[i + 1..] == before;
      FirstIsLast(before, last, device, covered);
    } else {
      WithoutFirst(before, i, device, covered);
      hide FirstCovered;
      WithoutEarlier(before, last, i);
      OneMore(before, last, device, covered);
      OneMore(before[..i] + before[i + 1..], last, device, covered);
    }
  }

  lemma FirstIsLast(before: seq<Check>, last: Check, device: int, covered: nat)
    requires forall k :: 0 <= k < |before| && before[k].device == device ==> before[k].serial > covered
    requires last.device == device && last.serial <= covered
    ensures Left(before + [last], device, covered) == Left(before, device, covered)
    ensures Covered(before + [last], device, covered) == [last] + Covered(before, device, covered)
  {
    hide Covered, Left;
    NoneCovered(before, device, covered);
    OneMore(before, last, device, covered);
  }

  lemma WithoutEarlier<T>(before: seq<T>, last: T, i: nat)
    requires i < |before|
    ensures (before + [last])[..i] + (before + [last])[i + 1..] == before[..i] + before[i + 1..] + [last]
  {
  }

  lemma NothingTaken(checks: seq<Check>, device: int, covered: nat)
    ensures Waiting(checks, 0, device, covered) == checks
    ensures Left(checks[..0], device, covered) == [] == Covered(checks[..0], device, covered)
  {
  }

  lemma AllTaken(checks: seq<Check>, device: int, covered: nat)
    ensures Waiting(checks, |checks|, device, covered) == Left(checks, device, covered)
  {
    assert checks[..|checks|] == checks;
  }

  lemma OpenIsQueued(checks: seq<Check>, places: Places, place: Place, i: nat)
    requires Lists(checks, places, place) && i < |checks|
    ensures checks[i].Open() ==> checks[i].slot.value in places && places[checks[i].slot.value] == place
  {
  }
}
