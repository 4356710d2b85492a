/** What a request leaves in the book when it succeeds and when it fails. */
module Commitments {
  import opened Options
  import opened Sums
  import opened Sorting
  import opened WaterFilling
  import opened EvenSplit
  import opened Devices
  import opened Filling
  import opened Ledgers
  import opened Requests
  import opened Admission
  import opened AllocMap

  ghost predicate NonNegative(token: Token) {
    forall c :: At(token, c) >= 0
  }

  ghost function Names(slots: seq<Request>): set<SlotName> {
    set r | r in slots :: r.slot
  }

  // FILL alone enters the shares of a slot that fails, and only in one case.
  predicate LeavesShares(strategy: Strategy, error: Option<Error>) {
    strategy.Fill? && error == Some(SharesNotMultiple)
  }

  lemma CommittedWithin(config: Config, ledger: Ledger, r: Request, minMemory: nat)
    requires Covered(config, ledger) && r.amount > 0
    ensures var here := OutcomeIn(config, ledger, r, minMemory);
      && Within(here.committed, SlotDevices(config.devices, ledger, r.slot))
      && (if here.error == None || LeavesShares(config.strategy, here.error)
          then IsExact(here.committed, SlotDevices(config.devices, ledger, r.slot), r.amount)
          else here.committed == map[])
  {
    hide SlotDevices, Plan, Distinct, Cells;
    SlotDevicesDistinct(config.devices, ledger, r.slot);
    var devs := SlotDevices(config.devices, ledger, r.slot);
    if r.amount <= Allocatable(config.strategy, devs, minMemory) {
      PlanIsExact(config.strategy, devs, r.amount, minMemory);
    }
  }

  lemma WithinIsNonNegative(config: Config, ledger: Ledger, slot: SlotName, shares: map<DeviceId, int>)
    requires Covered(config, ledger) && Within(shares, SlotDevices(config.devices, ledger, slot))
    ensures NonNegative(map[slot := shares])
  {
    hide SlotDevices;
    var devs := SlotDevices(config.devices, ledger, slot);
    forall id | id in shares ensures shares[id] >= 0 {
      IdsMeaning(devs, id);
      var i :| 0 <= i < |devs| && devs[i].id == id;
      assert devs[i] in devs;
    }
  }

  // However a request over several slots ends, no capacity is exceeded.
  lemma {:induction false} SlotsKeepBounds(config: Config, ledger: Ledger, slots: seq<Request>, minMemory: nat)
    requires Covered(config, ledger) && Bounded(config.devices, ledger)
    requires DistinctSlots(slots) && forall r :: r in slots ==> r.amount > 0
    ensures var token := SlotsOutcome(config, ledger, slots, minMemory).committed;
      && token.Keys <= Names(slots) && NonNegative(token)
      && Bounded(config.devices, Add(ledger, token))
    decreases |slots|
  {
    hide OutcomeIn, SlotDevices, Bounded, Cells, Add, Within;
    ShiftNothing(ledger, SlotName(""), false);
    if slots != [] {
      var n := |slots| - 1;
      var before := SlotsOutcome(config, ledger, slots[..n], minMemory);
      SlotsKeepBounds(config, ledger, slots[..n], minMemory);
      if before.error == None {
        var book := Add(ledger, before.committed);
        var here := OutcomeIn(config, book, slots[n], minMemory);
        CommittedWithin(config, book, slots[n], minMemory);
        WithinIsNonNegative(config, book, slots[n].slot, here.committed);
        CommitKeepsBounds(config.devices, book, slots[n].slot, here.committed);
        ShiftSlot(ledger, before.committed, slots[n].slot, here.committed, false);
        var token := before.committed[slots[n].slot := here.committed];
        forall c ensures At(token, c) >= 0 {
          assert At(before.committed, c) >= 0 && At(map[slots[n].slot := here.committed], c) >= 0;
        }
      }
    }
  }

  // A request that fails has entered exactly the full allocations of the slots
  // before the failing one and, with FILL alone, the shares of that one too.
  lemma {:induction false} FailureCommitsPrefix(config: Config, ledger: Ledger, slots: seq<Request>, minMemory: nat)
    returns (k: nat)
    requires Covered(config, ledger) && forall r :: r in slots ==> r.amount > 0
    requires SlotsOutcome(config, ledger, slots, minMemory).error != None
    ensures k < |slots| && SlotsOutcome(config, ledger, slots[..k], minMemory).error == None
    ensures var before := SlotsOutcome(config, ledger, slots[..k], minMemory).committed;
      var failing := OutcomeIn(config, Add(ledger, before), slots[k], minMemory);
      && SlotsOutcome(config, ledger, slots, minMemory)
         == Outcome(before[slots[k].slot := failing.committed], failing.error)
      && failing.error != None && (!LeavesShares(config.strategy, failing.error) ==> failing.committed == map[])
  {
    hide OutcomeIn, Cells, Add;
    var n := |slots| - 1;
    var before := SlotsOutcome(config, ledger, slots[..n], minMemory);
    if before.error == None {
      CommittedWithin(config, Add(ledger, before.committed), slots[n], minMemory);
      k := n;
    } else {
      k := FailureCommitsPrefix(config, ledger, slots[..n], minMemory);
      assert slots[..n][..k] == slots[..k];
    }
  }

  // ------------------------------------------------------- when nothing is left

  lemma {:induction false} FirstSlotStays(config: Config, ledger: Ledger, slots: seq<Request>, minMemory: nat)
    requires Covered(config, ledger) && slots != [] && DistinctSlots(slots) && forall r :: r in slots ==> r.amount > 0
    ensures var committed := SlotsOutcome(config, ledger, slots, minMemory).committed;
      slots[0].slot in committed
      && committed[slots[0].slot] == OutcomeIn(config, ledger, slots[0], minMemory).committed
    decreases |slots|
  {
    hide OutcomeIn, Cells, Add;
    var n := |slots| - 1;
    if n == 0 {
      assert slots[..0] == [];
      ShiftNothing(ledger, SlotName(""), false);
    } else {
      FirstSlotStays(config, ledger, slots[..n], minMemory);
    }
  }

  lemma FirstSlotFails(config: Config, ledger: Ledger, slots: seq<Request>, minMemory: nat)
    requires Covered(config, ledger) && slots != [] && forall r :: r in slots ==> r.amount > 0
    requires OutcomeIn(config, ledger, slots[0], minMemory).error != None
    ensures var first := OutcomeIn(config, ledger, slots[0], minMemory);
      SlotsOutcome(config, ledger, slots, minMemory) == Outcome(map[slots[0].slot := first.committed], first.error)
  {
    hide OutcomeIn, Cells, Add;
    ShiftNothing(ledger, SlotName(""), false);
    NoSlots(config, ledger, slots[..0], minMemory);
    SlotRound(config, ledger, slots, 0, map[], minMemory);
    FirstErrorEnds(config, ledger, slots, 1, minMemory);
  }

  // An exact plan for a positive amount shows in the book.
  lemma ExactPlanShows(config: Config, ledger: Ledger, slot: SlotName, plan: map<DeviceId, int>, amount: int)
    returns (c: Cell)
    requires Covered(config, ledger) && amount > 0
    requires IsExact(plan, SlotDevices(config.devices, ledger, slot), amount)
    ensures c in ledger && c.slot == slot && c.device in plan && plan[c.device] > 0
  {
    hide SlotDevices;
    assert plan != map[];
    var id := Member(plan.Keys);
    PlanCells(config, ledger, slot, plan);
    c := Cell(slot, id);
  }

  // The first slot is refused before any share of it is entered.
  ghost predicate RefusedAtOnce(config: Config, ledger: Ledger, slots: seq<Request>, minMemory: nat)
    requires Covered(config, ledger) && forall r :: r in slots ==> r.amount > 0
  {
    slots != []
    && var error := OutcomeIn(config, ledger, slots[0], minMemory).error;
       error != None && !LeavesShares(config.strategy, error)
  }

  // What refuses a slot before anything of it is entered: the amount of a
  // unique-type slot, the capacity or, with EVENLY, the division chosen.
  ghost predicate Refuses(strategy: Strategy, slotType: SlotType, devs: seq<Device>, amount: int, minMemory: nat)
    requires Distinct(devs) && amount > 0 && (strategy.Discrete? || strategy.quantum != 0)
  {
    || (!strategy.Evenly? && slotType == Unique && amount != WHOLE)
    || Allocatable(strategy, devs, minMemory) < amount
    || (strategy.Evenly? && !DividesIntoMultiples(strategy.quantum, devs, amount, minMemory))
  }

  ghost predicate DividesIntoMultiples(quantum: int, devs: seq<Device>, amount: int, minMemory: nat)
    requires Distinct(devs) && quantum != 0 && 0 < amount <= Allocatable(Evenly(quantum), devs, minMemory)
  {
    EvenlyRefusesExactly(quantum, Count, devs, amount, minMemory);
    var caps := ChosenWindow(Eligible(devs, minMemory), amount);
    EvenMultiples(caps, EvenCount(caps, amount), EvenAmount(caps, amount), quantum)
  }

  lemma SlotRefusedExactly(strategy: Strategy, slotType: SlotType, devs: seq<Device>, amount: int, minMemory: nat)
    requires Distinct(devs) && amount > 0 && (strategy.Discrete? || strategy.quantum != 0)
    ensures var error := SlotOutcome(strategy, slotType, devs, amount, minMemory).error;
      error != None && !LeavesShares(strategy, error) <==> Refuses(strategy, slotType, devs, amount, minMemory)
  {
    hide Distinct, Eligible, Sum, ChosenWindow, EvenMultiples, EvenCount, EvenAmount, Plan, Pool, AllMultiples;
    hide SortByFree, TruncatedSum, Descending, EvenPlan;
    if strategy.Evenly? && amount <= Allocatable(strategy, devs, minMemory) {
      EvenlyRefusesExactly(strategy.quantum, slotType, devs, amount, minMemory);
    }
  }

  // So the first slot is refused at once exactly when one of these guards holds.
  lemma RefusedAtOnceExactly(config: Config, ledger: Ledger, slots: seq<Request>, minMemory: nat)
    requires Covered(config, ledger) && slots != [] && forall r :: r in slots ==> r.amount > 0
    ensures var devs := SlotDevices(config.devices, ledger, slots[0].slot);
      && Distinct(devs)
      && (RefusedAtOnce(config, ledger, slots, minMemory) <==>
          Refuses(config.strategy, TypeOf(config.devices, slots[0].slot), devs, slots[0].amount, minMemory))
  {
    hide Distinct, SlotDevices, Cells, SlotOutcome, Refuses;
    SlotDevicesDistinct(config.devices, ledger, slots[0].slot);
    var devs := SlotDevices(config.devices, ledger, slots[0].slot);
    SlotRefusedExactly(config.strategy, TypeOf(config.devices, slots[0].slot), devs, slots[0].amount, minMemory);
  }

  // A failing request leaves the book as it was exactly when its first slot is
  // refused at once.
  lemma SlotsUnchangedExactly(config: Config, ledger: Ledger, slots: seq<Request>, minMemory: nat)
    requires Covered(config, ledger) && DistinctSlots(slots) && forall r :: r in slots ==> r.amount > 0
    requires SlotsOutcome(config, ledger, slots, minMemory).error != None
    ensures Add(ledger, SlotsOutcome(config, ledger, slots, minMemory).committed) == ledger
      <==> RefusedAtOnce(config, ledger, slots, minMemory)
  {
    hide OutcomeIn, SlotDevices, Cells, IsExact;
    var k := FailureCommitsPrefix(config, ledger, slots, minMemory);
    var first := OutcomeIn(config, ledger, slots[0], minMemory);
    var committed := SlotsOutcome(config, ledger, slots, minMemory).committed;
    CommittedWithin(config, ledger, slots[0], minMemory);
    FirstSlotStays(config, ledger, slots, minMemory);
    if RefusedAtOnce(config, ledger, slots, minMemory) {
      FirstSlotFails(config, ledger, slots, minMemory);
      ShiftNothing(ledger, slots[0].slot, false);
    } else {
      var c := ExactPlanShows(config, ledger, slots[0].slot, first.committed, slots[0].amount);
      assert Add(ledger, committed)[c] == ledger[c] + At(committed, c) > ledger[c];
    }
  }

  // The same for a request as a whole, with the checks that come first.
  ghost predicate LeavesNothing(config: Config, ledger: Ledger, requests: seq<Request>, minMemory: nat)
    requires Covered(config, ledger)
  {
    var slots := Prune(requests);
    Clash(config, slots) || OffQuantum(config.strategy, slots) || RefusedAtOnce(config, ledger, slots, minMemory)
  }

  lemma UnchangedExactly(config: Config, ledger: Ledger, requests: seq<Request>, minMemory: nat)
    requires Covered(config, ledger) && DistinctSlots(requests)
    requires RequestOutcome(config, ledger, requests, minMemory).error != None
    ensures Add(ledger, RequestOutcome(config, ledger, requests, minMemory).committed) == ledger
      <==> LeavesNothing(config, ledger, requests, minMemory)
  {
    hide SlotsOutcome, Cells, Clash, OffQuantum, Prune, Add, RefusedAtOnce;
    var slots := Prune(requests);
    ShiftNothing(ledger, SlotName(""), false);
    PruneKeepsDistinct(requests);
    if !Clash(config, slots) && !OffQuantum(config.strategy, slots) {
      SlotsUnchangedExactly(config, ledger, slots, minMemory);
    }
  }

  // A failing request for a single slot leaves the book as it was, except with FILL.
  lemma SingleFailureLeavesNothing(config: Config, ledger: Ledger, requests: seq<Request>, minMemory: nat)
    requires Covered(config, ledger) && !config.strategy.Fill? && |Prune(requests)| <= 1 && DistinctSlots(requests)
    requires RequestOutcome(config, ledger, requests, minMemory).error != None
    ensures Add(ledger, RequestOutcome(config, ledger, requests, minMemory).committed) == ledger
  {
    hide Cells, Clash, OffQuantum, Prune, Add, OutcomeIn;
    var slots := Prune(requests);
    UnchangedExactly(config, ledger, requests, minMemory);
    if !Clash(config, slots) && !OffQuantum(config.strategy, slots) {
      var k := FailureCommitsPrefix(config, ledger, slots, minMemory);
      assert slots[..0] == [];
      ShiftNothing(ledger, SlotName(""), false);
    }
  }

  // ------------------------------------------------------------- a small example

  // A discrete map with one whole device, and nobody's slots excluded.
  function OneDevice(id: DeviceId, slot: SlotName, fnmatch: (string, string) -> bool): Config {
    Config([DeviceSlot(id, slot, Count, WHOLE)], Discrete, [], fnmatch)
  }

  lemma OneDeviceCovered(id: DeviceId, slot: SlotName, fnmatch: (string, string) -> bool)
    ensures var config := OneDevice(id, slot, fnmatch);
      Covered(config, Cleared(config.devices)) && Cells(config.devices) == {Cell(slot, id)}
  {}

  lemma OneDeviceGrants(id: DeviceId, slot: SlotName, fnmatch: (string, string) -> bool, minMemory: nat)
    requires Covered(OneDevice(id, slot, fnmatch), Cleared(OneDevice(id, slot, fnmatch).devices))
    ensures var config := OneDevice(id, slot, fnmatch);
      OutcomeIn(config, Cleared(config.devices), Request(slot, WHOLE), minMemory) == Outcome(map[id := WHOLE], None)
  {
    var config := OneDevice(id, slot, fnmatch);
    var d, ledger := config.devices[0], Cleared(config.devices);
    assert Cell(slot, id) in Cells(config.devices);
    var dev := Device(id, WHOLE, 0);
    assert config.devices[..0] == [] && SlotDevices([], ledger, slot) == [];
    var devs := SlotDevices(config.devices, ledger, slot);
    assert devs == [] + [Device(d.id, d.amount, ledger[Cell(slot, d.id)])];
    assert devs == [dev];
    OneDevicePlan(dev, minMemory);
  }

  lemma OneDevicePlan(dev: Device, minMemory: nat)
    requires dev.Free() == WHOLE
    ensures Distinct([dev])
    ensures SlotOutcome(Discrete, Count, [dev], WHOLE, minMemory) == Outcome(map[dev.id := WHOLE], None)
  {
    var devs := [dev];
    assert devs[..0] == [] && devs[1..] == [];
    assert SortBy(devs[1..], FreeOf) == [];
    assert SortByFree(devs) == devs;
    assert Frees(devs) == [WHOLE] && [WHOLE][..0] == [] && [WHOLE][1..] == [];
    assert TruncatedSum([WHOLE]) == WHOLE;
    assert FillShares([WHOLE], WHOLE) == [WHOLE];
    assert devs[..1] == devs;
    assert Assign(devs[..0], [WHOLE][..0]) == map[];
  }

  lemma NoDeviceRefuses(id: DeviceId, a: SlotName, b: SlotName, fnmatch: (string, string) -> bool,
    ledger: Ledger, minMemory: nat)
    requires a != b && Covered(OneDevice(id, a, fnmatch), ledger)
    ensures OutcomeIn(OneDevice(id, a, fnmatch), ledger, Request(b, WHOLE), minMemory)
      == Outcome(map[], Some(InsufficientAmount))
  {
    var config := OneDevice(id, a, fnmatch);
    assert config.devices[..0] == [];
    assert SlotDevices(config.devices, ledger, b) == [];
    assert TypeOf(config.devices, b) == Count;
    assert TruncatedSum(Frees(SortByFree([]))) == 0;
  }

  // A failing request that leaves something: a whole device for slot a, and one
  // for slot b, of which there is none.
  lemma FailureLeavesEarlierSlot(id: DeviceId, a: SlotName, b: SlotName, fnmatch: (string, string) -> bool,
    minMemory: nat)
    requires a != b
    ensures var config := OneDevice(id, a, fnmatch);
      && Covered(config, Cleared(config.devices))
      && RequestOutcome(config, Cleared(config.devices), [Request(a, WHOLE), Request(b, WHOLE)], minMemory)
         == Outcome(map[a := map[id := WHOLE], b := map[]], Some(InsufficientAmount))
      && Add(Cleared(config.devices), map[a := map[id := WHOLE], b := map[]]) == map[Cell(a, id) := WHOLE]
  {
    var config := OneDevice(id, a, fnmatch);
    var ledger := Cleared(config.devices);
    OneDeviceCovered(id, a, fnmatch);
    OneDeviceGrants(id, a, fnmatch, minMemory);
    var first, second := Request(a, WHOLE), Request(b, WHOLE);
    var slots, token := [first, second], map[a := map[id := WHOLE]];
    TwoPositive(first, second);
    NoDeviceRefuses(id, a, b, fnmatch, Add(ledger, token), minMemory);
    hide OutcomeIn, Add, Cells;
    ShiftNothing(ledger, SlotName(""), false);
    NoSlots(config, ledger, slots[..0], minMemory);
    SlotRound(config, ledger, slots, 0, map[], minMemory);
    SlotRound(config, ledger, slots, 1, token, minMemory);
    assert slots[..2] == slots;
    assert token[b := map[]] == map[a := map[id := WHOLE], b := map[]];
    AddedWhole(id, a, b, fnmatch);
  }

  lemma AddedWhole(id: DeviceId, a: SlotName, b: SlotName, fnmatch: (string, string) -> bool)
    requires a != b
    ensures Add(Cleared(OneDevice(id, a, fnmatch).devices), map[a := map[id := WHOLE], b := map[]])
      == map[Cell(a, id) := WHOLE]
  {
    OneDeviceCovered(id, a, fnmatch);
  }

  lemma TwoPositive(first: Request, second: Request)
    requires first.amount > 0 && second.amount > 0
    ensures Prune([first, second]) == [first, second]
  {
    var r := [first, second];
    assert r[..1] == [first] && [first][..0] == [];
    assert Prune([first]) == [first];
  }
}
