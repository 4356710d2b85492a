/** The allocation maps themselves: objects whose book is updated in place. */
module AllocMap {
  import opened Options
  import opened Sums
  import opened WaterFilling
  import opened Devices
  import opened EvenSplit
  import opened EvenSearch
  import opened Filling
  import opened Ledgers
  import opened Requests
  import opened Admission

  ghost predicate ListedBefore(config: Config, s: SlotName, i: nat)
    requires i <= |config.exclusive|
  {
    s in config.exclusive
    || exists t :: t in config.exclusive[..i] && '*' in t.name && config.fnmatch(s.name, t.name)
  }

  // The list devs describes the book as it stands.
  ghost predicate Describes(devs: seq<Device>, ledger: Ledger, slot: SlotName) {
    forall d :: d in devs ==> Cell(slot, d.id) in ledger && ledger[Cell(slot, d.id)] == d.used
  }

  lemma SortedDevices(config: Config, ledger: Ledger, slot: SlotName)
    requires Covered(config, ledger)
    ensures var devs := SlotDevices(config.devices, ledger, slot);
      && Distinct(devs) && Distinct(SortByFree(devs)) && Descending(Frees(SortByFree(devs)))
      && Describes(SortByFree(devs), ledger, slot)
  {
    hide Distinct, Descending, SortByFree;
    var devs := SlotDevices(config.devices, ledger, slot);
    SlotDevicesDistinct(config.devices, ledger, slot);
    SortByFreeKeeps(devs);
    SortByFreeDistinct(devs);
    forall d | d in SortByFree(devs) ensures Cell(slot, d.id) in ledger && ledger[Cell(slot, d.id)] == d.used {
      assert d in multiset(devs);
      SlotDevicesMeaning(config.devices, ledger, slot, d);
    }
  }

  function Shift(ledger: Ledger, token: Token, back: bool): (shifted: Ledger)
    ensures shifted.Keys == ledger.Keys
  {
    if back then Subtract(ledger, token) else Add(ledger, token)
  }

  lemma ShiftNothing(ledger: Ledger, slot: SlotName, back: bool)
    ensures Shift(ledger, map[], back) == ledger
    ensures Shift(ledger, map[slot := map[]], back) == ledger
  {}

  lemma ShiftShare(ledger: Ledger, slot: SlotName, shares: map<DeviceId, int>, id: DeviceId, share: int, back: bool)
    requires Cell(slot, id) in ledger && id !in shares
    ensures var c, before := Cell(slot, id), Shift(ledger, map[slot := shares], back);
      && before[c] == ledger[c]
      && before[c := if back then before[c] - share else before[c] + share]
         == Shift(ledger, map[slot := shares[id := share]], back)
  {}

  lemma ShiftUnion(ledger: Ledger, a: Token, b: Token, back: bool)
    requires a.Keys !! b.Keys
    ensures Shift(Shift(ledger, a, back), b, back) == Shift(ledger, a + b, back)
  {}

  lemma ShiftSlot(ledger: Ledger, token: Token, slot: SlotName, shares: map<DeviceId, int>, back: bool)
    requires slot !in token
    ensures Shift(Shift(ledger, token, back), map[slot := shares], back) == Shift(ledger, token[slot := shares], back)
  {
    assert token[slot := shares] == token + map[slot := shares];
    ShiftUnion(ledger, token, map[slot := shares], back);
  }

  // What entering a token, or taking it out again, makes of any book.
  function Booked(ledger: Ledger, token: Token, back: bool): (booked: Ledger)
    ensures booked.Keys == ledger.Keys + CellsOf(token)
  {
    Shift(Opened(ledger, token), token, back)
  }

  function Value(ledger: Ledger, c: Cell): int { if c in ledger then ledger[c] else 0 }

  // Cell by cell, Booked adds or subtracts the shares of the token.
  lemma BookedValue(ledger: Ledger, token: Token, back: bool, c: Cell)
    ensures Value(Booked(ledger, token, back), c)
      == if back then Value(ledger, c) - At(token, c) else Value(ledger, c) + At(token, c)
    ensures c !in CellsOf(token) ==> At(token, c) == 0
  {
    if c.slot in token && c.device in token[c.slot] {
      assert Cell(c.slot, c.device) in CellsOf(token);
    }
  }

  lemma SameBook(a: Ledger, b: Ledger)
    requires a.Keys == b.Keys && forall c :: Value(a, c) == Value(b, c)
    ensures a == b
  {
    forall c | c in a ensures a[c] == b[c] {
      assert Value(a, c) == Value(b, c);
    }
  }

  lemma BookedNothing(ledger: Ledger, slot: SlotName, back: bool)
    ensures Booked(ledger, map[], back) == ledger && Booked(ledger, map[slot := map[]], back) == ledger
  {
    hide Shift;
    assert CellsOf(map[]) == {} && CellsOf(map[slot := map[]]) == {};
    assert Opened(ledger, map[]) == ledger && Opened(ledger, map[slot := map[]]) == ledger;
    ShiftNothing(ledger, slot, back);
  }

  lemma BookedShare(ledger: Ledger, slot: SlotName, shares: map<DeviceId, int>, id: DeviceId, share: int, back: bool)
    requires id !in shares
    ensures var c, before := Cell(slot, id), Booked(ledger, map[slot := shares], back);
      before[c := if back then Value(before, c) - share else Value(before, c) + share]
      == Booked(ledger, map[slot := shares[id := share]], back)
  {
    hide Booked;
    var c, was, now := Cell(slot, id), map[slot := shares], map[slot := shares[id := share]];
    assert CellsOf(now) == CellsOf(was) + {c};
    var before, after := Booked(ledger, was, back), Booked(ledger, now, back);
    var entered := before[c := if back then Value(before, c) - share else Value(before, c) + share];
    forall d ensures Value(entered, d) == Value(after, d) {
      BookedValue(ledger, was, back, d);
      BookedValue(ledger, now, back, d);
    }
    SameBook(entered, after);
  }

  lemma BookedSlot(ledger: Ledger, token: Token, slot: SlotName, shares: map<DeviceId, int>, back: bool)
    requires slot !in token
    ensures Booked(Booked(ledger, token, back), map[slot := shares], back)
      == Booked(ledger, token[slot := shares], back)
  {
    hide Booked;
    var one, all := map[slot := shares], token[slot := shares];
    assert CellsOf(all) == CellsOf(token) + CellsOf(one);
    var first := Booked(ledger, token, back);
    forall c ensures Value(Booked(first, one, back), c) == Value(Booked(ledger, all, back), c) {
      BookedValue(ledger, token, back, c);
      BookedValue(first, one, back, c);
      BookedValue(ledger, all, back, c);
      assert At(all, c) == At(token, c) + At(one, c);
    }
    SameBook(Booked(first, one, back), Booked(ledger, all, back));
  }

  // One round of the filling loop, and its end.
  lemma FillRound(devs: seq<Device>, i: nat, remaining: nat, shares: map<DeviceId, int>)
    requires i <= |devs|
    ensures i == |devs| || remaining == 0 ==> shares + FillMap(devs[i..], remaining) == shares
    ensures i < |devs| && remaining > 0 && devs[i].Free() <= 0 ==>
      FillMap(devs[i..], remaining) == FillMap(devs[i + 1..], remaining)
    ensures i < |devs| && remaining > 0 && devs[i].Free() > 0 ==>
      var share := Min(remaining, devs[i].Free());
      shares + FillMap(devs[i..], remaining) == shares[devs[i].id := share] + FillMap(devs[i + 1..], remaining - share)
  {
    if i < |devs| {
      assert devs[i..][0] == devs[i] && devs[i..][1..] == devs[i + 1..];
    }
  }

  method TotalAllocatable(devs: seq<Device>, wholeOnly: bool) returns (total: int)
    ensures total == if wholeOnly then TruncatedSum(Frees(devs)) else Sum(Frees(devs))
  {
    total := 0;
    for i := 0 to |devs|
      invariant total == if wholeOnly then TruncatedSum(Frees(devs)[..i]) else Sum(Frees(devs)[..i])
    {
      assert Frees(devs)[..i + 1][..i] == Frees(devs)[..i];
      var free := devs[i].amount - devs[i].used;
      total := total + if wholeOnly then Truncate(free) else free;
    }
    assert Frees(devs)[..|devs|] == Frees(devs);
  }

  // A plan stays within the cells of its slot.
  lemma PlanCells(config: Config, ledger: Ledger, slot: SlotName, plan: map<DeviceId, int>)
    requires Covered(config, ledger) && Within(plan, SlotDevices(config.devices, ledger, slot))
    ensures forall id :: id in plan ==> Cell(slot, id) in ledger
  {
    SlotDevicesDistinct(config.devices, ledger, slot);
  }

  lemma ClearedNext(devices: seq<DeviceSlot>, i: nat)
    requires i < |devices|
    ensures Cleared(devices[..i + 1]) == Cleared(devices[..i])[Cell(devices[i].slot, devices[i].id) := 0]
  {
    assert devices[..i + 1] == devices[..i] + [devices[i]];
    assert Cells(devices[..i + 1]) == Cells(devices[..i]) + {Cell(devices[i].slot, devices[i].id)};
  }

  lemma {:induction false} PruneKeepsDistinct(requests: seq<Request>)
    requires DistinctSlots(requests)
    ensures DistinctSlots(Prune(requests))
  {
    if requests != [] {
      var n := |requests| - 1;
      PruneKeepsDistinct(requests[..n]);
    }
  }

  datatype Result<T> = Ok(value: T) | Err(error: Error)

  // One round of the loop over the slots.
  lemma SlotRound(config: Config, ledger: Ledger, slots: seq<Request>, i: nat, before: Token, minMemory: nat)
    requires Covered(config, ledger) && (forall r :: r in slots ==> r.amount > 0) && i < |slots|
    requires SlotsOutcome(config, ledger, slots[..i], minMemory) == Outcome(before, None)
    ensures var here := OutcomeIn(config, Add(ledger, before), slots[i], minMemory);
      SlotsOutcome(config, ledger, slots[..i + 1], minMemory)
      == Outcome(before[slots[i].slot := here.committed], here.error)
  {
    hide OutcomeIn, Add, Cells;
    assert slots[..i + 1][..i] == slots[..i];
  }

  lemma NoSlots(config: Config, ledger: Ledger, slots: seq<Request>, minMemory: nat)
    requires Covered(config, ledger) && slots == []
    ensures SlotsOutcome(config, ledger, slots, minMemory) == Outcome(map[], None)
  {}

  // The first error is the outcome.
  lemma {:induction false} FirstErrorEnds(config: Config, ledger: Ledger, slots: seq<Request>, i: nat, minMemory: nat)
    requires Covered(config, ledger) && (forall r :: r in slots ==> r.amount > 0) && i <= |slots|
    requires SlotsOutcome(config, ledger, slots[..i], minMemory).error != None
    ensures SlotsOutcome(config, ledger, slots, minMemory) == SlotsOutcome(config, ledger, slots[..i], minMemory)
    decreases |slots|
  {
    hide OutcomeIn, Add, Cells;
    if i == |slots| {
      assert slots[..i] == slots;
    } else {
      var n := |slots| - 1;
      assert slots[..n][..i] == slots[..i];
      FirstErrorEnds(config, ledger, slots[..n], i, minMemory);
    }
  }

  class AllocationMap {
    const config: Config
    var allocations: Ledger

    ghost predicate Valid()
      reads this
    {
      Covered(config, allocations)
    }

    // A token for devices that the map does not know leaves it usable, though
    // not valid: the next request for such a slot fails on the unknown device.
    ghost predicate Usable()
      reads this
    {
      ValidConfig(config) && Cells(config.devices) <= allocations.Keys
    }

    constructor (config: Config)
      requires ValidConfig(config)
      ensures Valid() && this.config == config
      ensures allocations == Cleared(config.devices)
    {
      this.config := config;
      this.allocations := map[];
      new;
      for i := 0 to |config.devices|
        invariant allocations == Cleared(config.devices[..i])
      {
        ClearedNext(config.devices, i);
        allocations := allocations[Cell(config.devices[i].slot, config.devices[i].id) := 0];
      }
      assert config.devices[..|config.devices|] == config.devices;
    }

    method Clear()
      requires Usable()
      modifies this
      ensures Valid() && allocations == Cleared(config.devices)
    {
      allocations := map[];
      for i := 0 to |config.devices|
        invariant allocations == Cleared(config.devices[..i])
      {
        ClearedNext(config.devices, i);
        allocations := allocations[Cell(config.devices[i].slot, config.devices[i].id) := 0];
      }
      assert config.devices[..|config.devices|] == config.devices;
    }

    // Symmetric, and false of a slot with itself.
    method CheckExclusive(a: SlotName, b: SlotName) returns (clash: bool)
      ensures clash <==> Exclusive(config, a, b)
    {
      if config.exclusive == [] || a == b {
        return false;
      }
      var aListed, bListed := a in config.exclusive, b in config.exclusive;
      if aListed && bListed {
        return true;
      }
      for i := 0 to |config.exclusive|
        invariant aListed <==> ListedBefore(config, a, i)
        invariant bListed <==> ListedBefore(config, b, i)
      {
        assert config.exclusive[..i + 1] == config.exclusive[..i] + [config.exclusive[i]];
        var t := config.exclusive[i].name;
        if '*' in t {
          aListed := aListed || config.fnmatch(a.name, t);
          bListed := bListed || config.fnmatch(b.name, t);
        }
      }
      assert config.exclusive[..|config.exclusive|] == config.exclusive;
      return aListed && bListed;
    }

    // Uses up one device after the other, entering each share at once.
    method FillSlot(slot: SlotName, devs: seq<Device>, amount: nat) returns (shares: map<DeviceId, int>)
      requires Valid() && Distinct(devs) && Descending(Frees(devs)) && Describes(devs, allocations, slot)
      modifies this
      ensures Valid() && allocations == Add(old(allocations), map[slot := shares])
      ensures shares == FillPlan(devs, amount)
    {
      hide Distinct, Descending, FillPlan, FillMap, Cells, Add;
      var remaining := amount;
      shares := map[];
      ShiftNothing(allocations, slot, false);
      FillMapIsPlan(devs, amount);
      DistinctMeaning(devs);
      assert devs[0..] == devs;
      var i := 0;
      while i < |devs| && remaining > 0
        invariant 0 <= i <= |devs| && 0 <= remaining
        invariant FillMap(devs, amount) == shares + FillMap(devs[i..], remaining)
        invariant forall j :: i <= j < |devs| ==> devs[j].id !in shares
        invariant allocations == Add(old(allocations), map[slot := shares])
      {
        var id := devs[i].id;
        FillRound(devs, i, remaining, shares);
        ShiftShare(old(allocations), slot, shares, id, Min(remaining, devs[i].Free()), false);
        var current := allocations[Cell(slot, id)];
        var allocatable := devs[i].amount - current;
        if allocatable > 0 {
          var share := Min(remaining, allocatable);
          shares := shares[id := share];
          allocations := allocations[Cell(slot, id) := current + share];
          remaining := remaining - share;
        }
        i := i + 1;
      }
      FillRound(devs, i, remaining, shares);
    }

    // Enters the shares of one slot, or takes them out again.
    method Book(slot: SlotName, shares: map<DeviceId, int>, back: bool)
      modifies this
      ensures allocations == Booked(old(allocations), map[slot := shares], back)
    {
      hide Booked;
      var todo := shares.Keys;
      ghost var done: map<DeviceId, int> := map[];
      BookedNothing(allocations, slot, back);
      while todo != {}
        invariant todo <= shares.Keys && done.Keys == shares.Keys - todo
        invariant forall id :: id in done ==> done[id] == shares[id]
        invariant allocations == Booked(old(allocations), map[slot := done], back)
        decreases |todo|
      {
        var id :| id in todo;
        BookedShare(old(allocations), slot, done, id, shares[id], back);
        var c := Cell(slot, id);
        var current := Value(allocations, c);
        allocations := allocations[c := if back then current - shares[id] else current + shares[id]];
        done := done[id := shares[id]];
        todo := todo - {id};
      }
      assert done == shares;
    }

    method BookToken(token: Token, back: bool)
      modifies this
      ensures allocations == Booked(old(allocations), token, back)
    {
      hide Booked;
      var todo := token.Keys;
      ghost var done: Token := map[];
      BookedNothing(allocations, SlotName(""), back);
      while todo != {}
        invariant todo <= token.Keys && done.Keys == token.Keys - todo
        invariant forall s :: s in done ==> done[s] == token[s]
        invariant allocations == Booked(old(allocations), done, back)
        decreases |todo|
      {
        var s :| s in todo;
        BookedSlot(old(allocations), done, s, token[s], back);
        Book(s, token[s], back);
        done := done[s := token[s]];
        todo := todo - {s};
      }
      assert done == token;
    }

    method ApplyAllocation(token: Token)
      requires Usable()
      modifies this
      ensures Usable() && allocations == Add(Opened(old(allocations), token), token)
      ensures old(Valid()) && Known(token, old(allocations).Keys) ==>
        Valid() && allocations == Add(old(allocations), token)
    {
      KnownIsOpened(allocations, token);
      BookToken(token, false);
    }

    method Free(token: Token)
      requires Usable()
      modifies this
      ensures Usable() && allocations == Subtract(Opened(old(allocations), token), token)
      ensures old(Valid()) && Known(token, old(allocations).Keys) ==>
        Valid() && allocations == Subtract(old(allocations), token)
    {
      KnownIsOpened(allocations, token);
      BookToken(token, true);
    }

    // One slot of a request to the discrete map or to FILL.
    method FillRequest(r: Request, minMemory: nat) returns (outcome: Outcome<map<DeviceId, int>>)
      requires Valid() && r.amount > 0 && !config.strategy.Evenly?
      modifies this
      ensures Valid()
      ensures outcome == OutcomeIn(config, old(allocations), r, minMemory)
      ensures allocations == Add(old(allocations), map[r.slot := outcome.committed])
    {
      hide Distinct, Descending, SortByFree, SlotDevices, FillPlan, Sum, TruncatedSum, Cells, Add;
      ShiftNothing(allocations, r.slot, false);
      SortedDevices(config, allocations, r.slot);
      var devs := SlotDevices(config.devices, allocations, r.slot);
      var sorted := SortByFree(devs);
      if TypeOf(config.devices, r.slot) == Unique && r.amount != WHOLE {
        return Outcome(map[], Some(InvalidResourceArgument));
      }
      var total := TotalAllocatable(sorted, config.strategy.Discrete?);
      if total < r.amount {
        return Outcome(map[], Some(InsufficientAmount));
      }
      var shares := FillSlot(r.slot, sorted, r.amount);
      if config.strategy.Fill? && !AllMultiples(shares, config.strategy.quantum) {
        return Outcome(shares, Some(SharesNotMultiple));
      }
      return Outcome(shares, None);
    }

    // One slot of a request to EVENLY.
    method EvenRequest(r: Request, minMemory: nat) returns (outcome: Outcome<map<DeviceId, int>>)
      requires Valid() && r.amount > 0 && config.strategy.Evenly?
      modifies this
      ensures Valid()
      ensures outcome == OutcomeIn(config, old(allocations), r, minMemory)
      ensures allocations == Add(old(allocations), map[r.slot := outcome.committed])
    {
      hide Distinct, Descending, Eligible, SlotDevices, EvenPlan, Sum, Cells, Add;
      ShiftNothing(allocations, r.slot, false);
      SortedDevices(config, allocations, r.slot);
      var devs := SlotDevices(config.devices, allocations, r.slot);
      var pool := Eligible(devs, minMemory);
      EligibleIsPool(devs, minMemory);
      var total := TotalAllocatable(pool, false);
      if total < r.amount {
        return Outcome(map[], Some(InsufficientAmount));
      }
      var shares := AllocateEvenly(pool, r.amount, minMemory);
      if !AllMultiples(shares, config.strategy.quantum) {
        return Outcome(map[], Some(SharesNotMultiple));
      }
      PlanIsExact(config.strategy, devs, r.amount, minMemory);
      PlanCells(config, allocations, r.slot, shares);
      KnownIsOpened(allocations, map[r.slot := shares]);
      Book(r.slot, shares, false);
      return Outcome(shares, None);
    }

    method AllocateSlots(slots: seq<Request>, minMemory: nat) returns (r: Result<Token>)
      requires Valid() && DistinctSlots(slots) && forall s :: s in slots ==> s.amount > 0
      modifies this
      ensures Valid()
      ensures var outcome := SlotsOutcome(config, old(allocations), slots, minMemory);
        && allocations == Add(old(allocations), outcome.committed)
        && r == if outcome.error == None then Ok(outcome.committed) else Err(outcome.error.value)
    {
      hide OutcomeIn, Add, SlotsOutcome, Cells;
      var allocation: Token := map[];
      ShiftNothing(allocations, SlotName(""), false);
      NoSlots(config, allocations, slots[..0], minMemory);
      for i := 0 to |slots|
        invariant Valid() && allocations == Add(old(allocations), allocation)
        invariant forall j :: i <= j < |slots| ==> slots[j].slot !in allocation
        invariant SlotsOutcome(config, old(allocations), slots[..i], minMemory) == Outcome(allocation, None)
      {
        SlotRound(config, old(allocations), slots, i, allocation, minMemory);
        var outcome;
        if config.strategy.Evenly? {
          outcome := EvenRequest(slots[i], minMemory);
        } else {
          outcome := FillRequest(slots[i], minMemory);
        }
        ShiftSlot(old(allocations), allocation, slots[i].slot, outcome.committed, false);
        allocation := allocation[slots[i].slot := outcome.committed];
        if outcome.error != None {
          FirstErrorEnds(config, old(allocations), slots, i + 1, minMemory);
          return Err(outcome.error.value);
        }
      }
      assert slots[..|slots|] == slots;
      return Ok(allocation);
    }

    method Allocate(requests: seq<Request>, minMemory: nat) returns (r: Result<Token>)
      requires Valid() && DistinctSlots(requests)
      modifies this
      ensures Valid()
      ensures var outcome := RequestOutcome(config, old(allocations), requests, minMemory);
        && allocations == Add(old(allocations), outcome.committed)
        && r == if outcome.error == None then Ok(outcome.committed) else Err(outcome.error.value)
    {
      hide SlotsOutcome, Cells, Add, Exclusive;
      var slots := Prune(requests);
      ShiftNothing(allocations, SlotName(""), false);
      for i := 0 to |slots|
        invariant allocations == old(allocations)
        invariant forall a, b :: 0 <= a < i && 0 <= b < |slots| ==> !Exclusive(config, slots[a].slot, slots[b].slot)
      {
        for j := 0 to |slots|
          invariant allocations == old(allocations)
          invariant forall b :: 0 <= b < j ==> !Exclusive(config, slots[i].slot, slots[b].slot)
        {
          var clash := CheckExclusive(slots[i].slot, slots[j].slot);
          if clash {
            assert Clash(config, slots);
            return Err(InvalidResourceCombination);
          }
        }
      }
      if !config.strategy.Discrete? {
        for i := 0 to |slots|
          invariant allocations == old(allocations)
          invariant forall k :: 0 <= k < i ==> slots[k].amount % config.strategy.quantum == 0
        {
          if slots[i].amount % config.strategy.quantum != 0 {
            return Err(NotMultipleOfQuantum);
          }
        }
      }
      PruneKeepsDistinct(requests);
      r := AllocateSlots(slots, minMemory);
    }
  }
}
