/** What a request to an allocation map yields: which part of it is entered in
    the book, and which error, if any, ends it. */
module Requests {
  import opened Options
  import opened Sums
  import opened WaterFilling
  import opened Devices
  import opened EvenSplit
  import opened Filling
  import opened Ledgers

  // DiscretePropertyAllocMap, or FractionAllocMap with FILL or EVENLY.
  datatype Strategy = Discrete | Fill(quantum: int) | Evenly(quantum: int)

  datatype Config = Config(devices: seq<DeviceSlot>, strategy: Strategy,
                           exclusive: seq<SlotName>, fnmatch: (string, string) -> bool)

  datatype Request = Request(slot: SlotName, amount: int)

  // The last two are the two ways of raising InsufficientResource.
  datatype Error = InvalidResourceCombination | NotMultipleOfQuantum | InvalidResourceArgument
                 | InsufficientAmount | SharesNotMultiple

  // committed is entered in the book even when error is set.
  datatype Outcome<T> = Outcome(committed: T, error: Option<Error>)

  // One whole device.
  const WHOLE: int := 100

  predicate ValidConfig(config: Config) {
    && DistinctIds(config.devices)
    && (config.strategy.Discrete? || config.strategy.quantum != 0)
  }

  // ------------------------------------------------------- checks before planning

  predicate Listed(config: Config, s: SlotName) {
    s in config.exclusive
    || exists t :: t in config.exclusive && '*' in t.name && config.fnmatch(s.name, t.name)
  }

  predicate Exclusive(config: Config, a: SlotName, b: SlotName) {
    a != b && Listed(config, a) && Listed(config, b)
  }

  function Prune(requests: seq<Request>): (slots: seq<Request>)
    ensures forall r :: r in slots <==> r in requests && r.amount > 0
  {
    if requests == [] then []
    else
      var n := |requests| - 1;
      assert requests == requests[..n] + [requests[n]];
      Prune(requests[..n]) + if requests[n].amount > 0 then [requests[n]] else []
  }

  ghost predicate DistinctSlots(requests: seq<Request>) {
    forall i, j :: 0 <= i < j < |requests| ==> requests[i].slot != requests[j].slot
  }

  ghost predicate Clash(config: Config, slots: seq<Request>) {
    exists a, b :: a in slots && b in slots && Exclusive(config, a.slot, b.slot)
  }

  ghost predicate OffQuantum(strategy: Strategy, slots: seq<Request>)
    requires strategy.Discrete? || strategy.quantum != 0
  {
    !strategy.Discrete? && exists r :: r in slots && r.amount % strategy.quantum != 0
  }

  function TypeOf(devices: seq<DeviceSlot>, slot: SlotName): SlotType {
    if devices == [] then Count
    else if devices[|devices| - 1].slot == slot then devices[|devices| - 1].slotType
    else TypeOf(devices[..|devices| - 1], slot)
  }

  // ----------------------------------------------------------------- one slot

  // Python's int(): towards zero, to a whole number of devices.
  function Truncate(v: int): int {
    if v >= 0 then v / WHOLE * WHOLE else -(-v / WHOLE * WHOLE)
  }

  function TruncatedSum(caps: seq<int>): int {
    if caps == [] then 0 else TruncatedSum(caps[..|caps| - 1]) + Truncate(caps[|caps| - 1])
  }

  function Eligible(devs: seq<Device>, minMemory: int): seq<Device> {
    AtLeast(SortByFree(devs), minMemory)
  }

  lemma PrefixIsPool(sorted: seq<Device>, k: nat)
    requires Distinct(sorted) && Descending(Frees(sorted)) && k <= |sorted|
    requires forall i :: 0 <= i < k ==> sorted[i].Free() >= 0
    ensures Pool(sorted[..k])
  {
    hide Distinct;
    SliceDistinct(sorted, 0, k);
    assert sorted[0..k] == sorted[..k];
    assert Frees(sorted[..k]) == Frees(sorted)[..k];
  }

  lemma EligibleIsPool(devs: seq<Device>, minMemory: nat)
    requires Distinct(devs)
    ensures Pool(Eligible(devs, minMemory))
  {
    hide Distinct, Pool, SortByFree, AtLeast, Descending;
    SortByFreeKeeps(devs);
    SortByFreeDistinct(devs);
    var k := AtLeastIsPrefix(SortByFree(devs), minMemory);
    PrefixIsPool(SortByFree(devs), k);
  }

  // The capacity against which a request is admitted.
  function Allocatable(strategy: Strategy, devs: seq<Device>, minMemory: int): int {
    match strategy
    case Discrete => TruncatedSum(Frees(SortByFree(devs)))
    case Fill(_) => Sum(Frees(SortByFree(devs)))
    case Evenly(_) => Sum(Frees(Eligible(devs, minMemory)))
  }

  ghost function Plan(strategy: Strategy, devs: seq<Device>, amount: int, minMemory: nat): map<DeviceId, int>
    requires Distinct(devs) && 0 < amount <= Allocatable(strategy, devs, minMemory)
  {
    if strategy.Evenly? then
      EligibleIsPool(devs, minMemory);
      EvenPlan(Eligible(devs, minMemory), amount)
    else
      FillPlan(SortByFree(devs), amount)
  }

  predicate AllMultiples(shares: map<DeviceId, int>, quantum: int)
    requires quantum != 0
  {
    forall id :: id in shares ==> shares[id] % quantum == 0
  }

  // FILL commits before it looks at the quantum, EVENLY afterwards.
  ghost function SlotOutcome(strategy: Strategy, slotType: SlotType, devs: seq<Device>, amount: int, minMemory: nat)
    : Outcome<map<DeviceId, int>>
    requires Distinct(devs) && amount > 0
    requires strategy.Discrete? || strategy.quantum != 0
  {
    if !strategy.Evenly? && slotType == Unique && amount != WHOLE then Outcome(map[], Some(InvalidResourceArgument))
    else if Allocatable(strategy, devs, minMemory) < amount then Outcome(map[], Some(InsufficientAmount))
    else
      var plan := Plan(strategy, devs, amount, minMemory);
      if strategy.Discrete? || AllMultiples(plan, strategy.quantum) then Outcome(plan, None)
      else Outcome(if strategy.Fill? then plan else map[], Some(SharesNotMultiple))
  }

  // -------------------------------------------------------------- several slots

  ghost predicate Covered(config: Config, ledger: Ledger) {
    ValidConfig(config) && ledger.Keys == Cells(config.devices)
  }

  ghost function OutcomeIn(config: Config, ledger: Ledger, r: Request, minMemory: nat): Outcome<map<DeviceId, int>>
    requires Covered(config, ledger) && r.amount > 0
  {
    SlotDevicesDistinct(config.devices, ledger, r.slot);
    SlotOutcome(config.strategy, TypeOf(config.devices, r.slot), SlotDevices(config.devices, ledger, r.slot),
                r.amount, minMemory)
  }

  // Slot after slot, each against the book its predecessors left, until one fails.
  ghost function SlotsOutcome(config: Config, ledger: Ledger, slots: seq<Request>, minMemory: nat): Outcome<Token>
    requires Covered(config, ledger) && forall r :: r in slots ==> r.amount > 0
    decreases |slots|
  {
    if slots == [] then Outcome(map[], None)
    else
      var n := |slots| - 1;
      var before := SlotsOutcome(config, ledger, slots[..n], minMemory);
      if before.error != None then before
      else
        var here := OutcomeIn(config, Add(ledger, before.committed), slots[n], minMemory);
        Outcome(before.committed[slots[n].slot := here.committed], here.error)
  }

  ghost function RequestOutcome(config: Config, ledger: Ledger, requests: seq<Request>, minMemory: nat): Outcome<Token>
    requires Covered(config, ledger)
  {
    var slots := Prune(requests);
    if Clash(config, slots) then Outcome(map[], Some(InvalidResourceCombination))
    else if OffQuantum(config.strategy, slots) then Outcome(map[], Some(NotMultipleOfQuantum))
    else SlotsOutcome(config, ledger, slots, minMemory)
  }
}
