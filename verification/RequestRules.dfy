/** What a whole request is refused for and what it is granted, told from the
    devices, the book and the amounts asked for. */
module RequestRules {
  import opened Options
  import opened Sums
  import opened Devices
  import opened Ledgers
  import opened Requests
  import opened Admission
  import opened AllocMap
  import opened Commitments

  // ------------------------------------------------------------- the whole request

  lemma {:induction false} PruneAppend(a: seq<Request>, b: seq<Request>)
    ensures Prune(a + b) == Prune(a) + Prune(b)
  {
    if b == [] {
      assert a + b == a;
    } else {
      var n := |b| - 1;
      assert (a + b)[..|a + b| - 1] == a + b[..n] && (a + b)[|a + b| - 1] == b[n];
      PruneAppend(a, b[..n]);
    }
  }

  // Exactly the amounts of zero or less are dropped, and the order is kept.
  lemma PruneKeepsOrder(a: seq<Request>, r: Request, b: seq<Request>)
    ensures Prune(a + [r] + b) == Prune(a) + (if r.amount > 0 then [r] else []) + Prune(b)
  {
    PruneAppend(a + [r], b);
    PruneAppend(a, [r]);
    assert [r][..0] == [] && Prune([]) == [];
  }

  // The slot is on the list of exclusive ones, itself or by a pattern.
  predicate OnList(exclusive: seq<SlotName>, fnmatch: (string, string) -> bool, s: SlotName) {
    exists i :: 0 <= i < |exclusive|
      && (exclusive[i] == s || ('*' in exclusive[i].name && fnmatch(s.name, exclusive[i].name)))
  }

  // Two different slots of the list are asked for at once.
  ghost predicate AsksForBoth(config: Config, requests: seq<Request>) {
    exists a, b :: a in requests && b in requests && a.amount > 0 && b.amount > 0 && a.slot != b.slot
      && OnList(config.exclusive, config.fnmatch, a.slot) && OnList(config.exclusive, config.fnmatch, b.slot)
  }

  lemma ListedExactly(config: Config, s: SlotName)
    ensures Listed(config, s) <==> OnList(config.exclusive, config.fnmatch, s)
  {
    if t :| t in config.exclusive && '*' in t.name && config.fnmatch(s.name, t.name) {
      var i :| 0 <= i < |config.exclusive| && config.exclusive[i] == t;
    }
  }

  lemma ClashExactly(config: Config, requests: seq<Request>)
    ensures Clash(config, Prune(requests)) <==> AsksForBoth(config, requests)
  {
    hide Listed, OnList, Prune;
    var slots := Prune(requests);
    forall r | r in requests ensures Listed(config, r.slot) <==> OnList(config.exclusive, config.fnmatch, r.slot) {
      ListedExactly(config, r.slot);
    }
    assert forall r :: r in slots <==> r in requests && r.amount > 0;
  }

  // The planning of slots has errors of its own.
  lemma {:induction false} SlotErrors(config: Config, ledger: Ledger, slots: seq<Request>, minMemory: nat)
    requires Covered(config, ledger) && forall r :: r in slots ==> r.amount > 0
    ensures SlotsOutcome(config, ledger, slots, minMemory).error
      in {None, Some(InvalidResourceArgument), Some(InsufficientAmount), Some(SharesNotMultiple)}
  {
    hide Add, Cells, SlotDevices, Plan, Allocatable, AllMultiples;
    if slots != [] {
      SlotErrors(config, ledger, slots[..|slots| - 1], minMemory);
    }
  }

  // A request is refused as a whole, with nothing entered, exactly when it asks for
  // two exclusive slots or, failing that, for an amount off the quantum.
  lemma ChecksExactly(config: Config, ledger: Ledger, requests: seq<Request>, minMemory: nat)
    requires Covered(config, ledger)
    ensures var outcome := RequestOutcome(config, ledger, requests, minMemory);
      && (outcome.error == Some(InvalidResourceCombination) <==> AsksForBoth(config, requests))
      && (outcome.error == Some(NotMultipleOfQuantum) <==>
          && !AsksForBoth(config, requests) && !config.strategy.Discrete?
          && exists i :: 0 <= i < |requests| && requests[i].amount > 0
                         && requests[i].amount % config.strategy.quantum != 0)
      && (outcome.error in {Some(InvalidResourceCombination), Some(NotMultipleOfQuantum)} ==>
          outcome.committed == map[])
  {
    hide Clash, AsksForBoth, SlotsOutcome, Prune, Cells;
    ClashExactly(config, requests);
    var slots := Prune(requests);
    SlotErrors(config, ledger, slots, minMemory);
    if !config.strategy.Discrete? {
      forall i | 0 <= i < |requests| && requests[i].amount > 0 ensures requests[i] in slots {
      }
    }
  }

  // --------------------------------------------------------------- unique slots

  // Device i is the last one of the slot, which decides about its type.
  predicate LastOf(devices: seq<DeviceSlot>, slot: SlotName, i: int) {
    && 0 <= i < |devices| && devices[i].slot == slot
    && forall j :: i < j < |devices| ==> devices[j].slot != slot
  }

  lemma {:induction false} TypeIsLast(devices: seq<DeviceSlot>, slot: SlotName)
    ensures forall i :: LastOf(devices, slot, i) ==> TypeOf(devices, slot) == devices[i].slotType
    ensures TypeOf(devices, slot) != Count ==> exists i :: LastOf(devices, slot, i)
  {
    if devices != [] {
      var n := |devices| - 1;
      TypeIsLast(devices[..n], slot);
      if devices[n].slot == slot {
        assert LastOf(devices, slot, n);
      } else {
        forall i | LastOf(devices, slot, i) ensures LastOf(devices[..n], slot, i) {
        }
        if i :| LastOf(devices[..n], slot, i) {
          assert LastOf(devices, slot, i);
        }
      }
    }
  }

  // The discrete map and FILL, and they alone, refuse any amount but one of a slot
  // whose last device is of the unique type; nothing is entered then.
  lemma UniqueExactly(config: Config, ledger: Ledger, r: Request, minMemory: nat)
    requires Covered(config, ledger) && r.amount > 0
    ensures var outcome := OutcomeIn(config, ledger, r, minMemory);
      && (outcome.error == Some(InvalidResourceArgument) <==>
          && !config.strategy.Evenly? && r.amount != WHOLE
          && exists i :: LastOf(config.devices, r.slot, i) && config.devices[i].slotType == Unique)
      && (outcome.error == Some(InvalidResourceArgument) ==> outcome.committed == map[])
  {
    hide SlotDevices, Cells, Plan, Allocatable, LastOf, TypeOf, AllMultiples;
    TypeIsLast(config.devices, r.slot);
    SlotDevicesDistinct(config.devices, ledger, r.slot);
  }

  // EVENLY refuses a slot for lack of capacity exactly when its devices with
  // min_memory free cannot hold the amount, and takes from such devices only.
  lemma EvenlyExactly(config: Config, ledger: Ledger, r: Request, minMemory: nat)
    requires Covered(config, ledger) && r.amount > 0 && config.strategy.Evenly?
    ensures var outcome, devs := OutcomeIn(config, ledger, r, minMemory), SlotDevices(config.devices, ledger, r.slot);
      && OnlyFrom(outcome.committed, devs, minMemory)
      && (outcome.error == Some(InsufficientAmount) <==>
          !exists split :: IsSplit(split, devs, r.amount) && OnlyFrom(split, devs, minMemory))
  {
    hide SlotDevices, Cells, SlotOutcome, OnlyFrom, IsSplit, Distinct;
    SlotDevicesDistinct(config.devices, ledger, r.slot);
    var devs, slotType := SlotDevices(config.devices, ledger, r.slot), TypeOf(config.devices, r.slot);
    EvenlyAdmission(config.strategy.quantum, slotType, devs, r.amount, minMemory);
    EvenlyHeedsMemory(config.strategy.quantum, slotType, devs, r.amount, minMemory);
  }

  // ------------------------------------------------------------ what is granted

  lemma {:induction false} SameSlotDevices(devices: seq<DeviceSlot>, a: Ledger, b: Ledger, slot: SlotName)
    requires Cells(devices) <= a.Keys && Cells(devices) <= b.Keys
    requires forall d :: d in devices && d.slot == slot ==>
      Cell(slot, d.id) in a && Cell(slot, d.id) in b && a[Cell(slot, d.id)] == b[Cell(slot, d.id)]
    ensures SlotDevices(devices, a, slot) == SlotDevices(devices, b, slot)
  {
    if devices != [] {
      var n := |devices| - 1;
      assert devices == devices[..n] + [devices[n]];
      assert Cells(devices[..n]) <= Cells(devices);
      SameSlotDevices(devices[..n], a, b, slot);
    }
  }

  lemma OtherSlotsUntouched(config: Config, ledger: Ledger, token: Token, slot: SlotName)
    requires Covered(config, ledger) && slot !in token
    ensures Covered(config, Add(ledger, token))
    ensures SlotDevices(config.devices, Add(ledger, token), slot) == SlotDevices(config.devices, ledger, slot)
  {
    forall d | d in config.devices && d.slot == slot ensures Cell(slot, d.id) in ledger {
      assert Cell(d.slot, d.id) in Cells(config.devices);
    }
    SameSlotDevices(config.devices, Add(ledger, token), ledger, slot);
  }

  ghost predicate ExactFor(config: Config, ledger: Ledger, token: Token, r: Request, minMemory: nat)
    requires Covered(config, ledger)
  {
    && r.slot in token
    && IsExact(token[r.slot], SlotDevices(config.devices, ledger, r.slot), r.amount)
    && (config.strategy.Evenly? ==> OnlyFrom(token[r.slot], SlotDevices(config.devices, ledger, r.slot), minMemory))
  }

  lemma LastIsExact(config: Config, ledger: Ledger, token: Token, r: Request, minMemory: nat)
    requires Covered(config, ledger) && r.amount > 0 && r.slot !in token
    ensures Covered(config, Add(ledger, token))
    ensures var here := OutcomeIn(config, Add(ledger, token), r, minMemory);
      here.error == None ==> ExactFor(config, ledger, token[r.slot := here.committed], r, minMemory)
  {
    hide OutcomeIn, Add, Cells, SlotDevices, IsExact, OnlyFrom;
    OtherSlotsUntouched(config, ledger, token, r.slot);
    CommittedWithin(config, Add(ledger, token), r, minMemory);
    if config.strategy.Evenly? {
      EvenlyExactly(config, Add(ledger, token), r, minMemory);
    }
  }

  lemma {:induction false} SlotsAreExact(config: Config, ledger: Ledger, slots: seq<Request>, minMemory: nat)
    requires Covered(config, ledger) && DistinctSlots(slots) && forall r :: r in slots ==> r.amount > 0
    requires SlotsOutcome(config, ledger, slots, minMemory).error == None
    ensures var token := SlotsOutcome(config, ledger, slots, minMemory).committed;
      token.Keys == Names(slots) && forall r :: r in slots ==> ExactFor(config, ledger, token, r, minMemory)
  {
    if slots != [] {
      hide OutcomeIn, Add, Covered, SlotDevices, IsExact, OnlyFrom;
      var n := |slots| - 1;
      var before := SlotsOutcome(config, ledger, slots[..n], minMemory).committed;
      SlotsAreExact(config, ledger, slots[..n], minMemory);
      NamesNext(slots);
      LastIsExact(config, ledger, before, slots[n], minMemory);
    }
  }

  lemma NamesNext(slots: seq<Request>)
    requires slots != [] && DistinctSlots(slots)
    ensures var n := |slots| - 1;
      Names(slots) == Names(slots[..n]) + {slots[n].slot} && slots[n].slot !in Names(slots[..n])
      && forall r :: r in slots <==> r in slots[..n] || r == slots[n]
  {
    var n := |slots| - 1;
    assert slots == slots[..n] + [slots[n]];
  }

  // A granted request is given exactly what it asks for: of each slot positive
  // shares that add up to the amount, from devices of that slot, within what the
  // book has free of them.
  lemma GrantIsExact(config: Config, ledger: Ledger, requests: seq<Request>, minMemory: nat)
    requires Covered(config, ledger) && DistinctSlots(requests)
    requires RequestOutcome(config, ledger, requests, minMemory).error == None
    ensures var token := RequestOutcome(config, ledger, requests, minMemory).committed;
      && (forall s :: s in token <==> exists r :: r in requests && r.slot == s && r.amount > 0)
      && forall r :: r in requests && r.amount > 0 ==>
        && MapSum(token[r.slot]) == r.amount
        && forall id :: id in token[r.slot] ==> SharedOut(config, ledger, minMemory, r.slot, id, token[r.slot][id])
  {
    hide SlotsOutcome, Prune, Cells, Clash, OffQuantum, SlotDevices, Within;
    var slots := Prune(requests);
    PruneKeepsDistinct(requests);
    SlotsAreExact(config, ledger, slots, minMemory);
    var token := SlotsOutcome(config, ledger, slots, minMemory).committed;
    forall r, id | r in slots && id in token[r.slot]
      ensures SharedOut(config, ledger, minMemory, r.slot, id, token[r.slot][id])
    {
      ExactShare(config, ledger, r, minMemory, token, id);
    }
  }

  // A share of a device of the slot, within what is free of it; EVENLY takes only
  // from devices that have min_memory free.
  ghost predicate SharedOut(config: Config, ledger: Ledger, minMemory: nat, slot: SlotName, id: DeviceId, share: int) {
    exists d :: d in config.devices && d.id == id && d.slot == slot && Cell(slot, id) in ledger
      && 0 < share <= d.amount - ledger[Cell(slot, id)]
      && (config.strategy.Evenly? ==> d.amount - ledger[Cell(slot, id)] >= minMemory)
  }

  lemma ExactShare(config: Config, ledger: Ledger, r: Request, minMemory: nat, token: Token, id: DeviceId)
    requires Covered(config, ledger) && ExactFor(config, ledger, token, r, minMemory) && id in token[r.slot]
    ensures SharedOut(config, ledger, minMemory, r.slot, id, token[r.slot][id])
  {
    hide SlotDevices;
    var devs := SlotDevices(config.devices, ledger, r.slot);
    IdsMeaning(devs, id);
    var i :| 0 <= i < |devs| && devs[i].id == id;
    assert devs[i] in devs;
    SlotDevicesMeaning(config.devices, ledger, r.slot, devs[i]);
  }

  // ------------------------------------------------------ whole devices only

  // v without its fraction of a device, towards zero.
  predicate IsWhole(w: int, v: int) {
    w % WHOLE == 0 && if v >= 0 then 0 <= v - w < WHOLE else 0 <= w - v < WHOLE
  }

  lemma WholeIsUnique(v: int, w: int)
    requires IsWhole(w, v)
    ensures w == Truncate(v)
  {}

  lemma {:induction false} WholesTotal(caps: seq<int>, wholes: seq<int>)
    requires |wholes| == |caps| && forall i :: 0 <= i < |caps| ==> IsWhole(wholes[i], caps[i])
    ensures TruncatedSum(caps) == Sum(wholes)
  {
    if caps != [] {
      var n := |caps| - 1;
      WholesTotal(caps[..n], wholes[..n]);
      WholeIsUnique(caps[n], wholes[n]);
    }
  }

  // FILL refuses for lack of capacity exactly when the amount exceeds what is free
  // of all devices together, the discrete map when it exceeds the whole devices free.
  lemma FillingRefusesExactly(slotType: SlotType, devs: seq<Device>, amount: int, quantum: int, minMemory: nat,
    wholes: seq<int>)
    requires Distinct(devs) && amount > 0 && quantum != 0 && (slotType == Unique ==> amount == WHOLE)
    requires |wholes| == |SortByFree(devs)| && forall i :: 0 <= i < |wholes| ==>
      IsWhole(wholes[i], SortByFree(devs)[i].Free())
    ensures SlotOutcome(Fill(quantum), slotType, devs, amount, minMemory).error == Some(InsufficientAmount)
      <==> Sum(Frees(devs)) < amount
    ensures SlotOutcome(Discrete, slotType, devs, amount, minMemory).error == Some(InsufficientAmount)
      <==> Sum(wholes) < amount
  {
    hide SortByFree, Distinct, Plan, Sum, TruncatedSum, AllMultiples, IsWhole;
    SortByFreeKeeps(devs);
    WholesTotal(Frees(SortByFree(devs)), wholes);
  }
}
