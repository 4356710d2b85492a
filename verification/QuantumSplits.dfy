/** When an amount can be divided into multiples of the quantum at all, and when
    the strategies refuse although it can. */
module QuantumSplits {
  import opened Options
  import opened Sums
  import opened Quanta
  import opened WaterFilling
  import opened Devices
  import opened EvenSplit
  import opened Filling
  import opened Ledgers
  import opened Requests
  import opened Admission

  // The largest multiple of the quantum that is not more than v.
  function Floor(v: int, quantum: int): int
    requires quantum != 0
  {
    v - v % quantum
  }

  function Floors(caps: seq<int>, quantum: int): (floors: seq<int>)
    requires quantum != 0
    ensures |floors| == |caps|
  {
    seq(|caps|, i requires 0 <= i < |caps| => Floor(caps[i], quantum))
  }

  lemma FloorIsMultiple(v: int, quantum: int)
    requires quantum != 0
    ensures Floor(v, quantum) % quantum == 0 && Floor(v, quantum) <= v
  {
    var q := v / quantum;
    assert v == q * quantum + v % quantum;
    MultipleOf(q, quantum);
  }

  lemma FloorIsLargest(m: int, v: int, quantum: int)
    requires quantum != 0 && m % quantum == 0 && m <= v
    ensures m <= Floor(v, quantum)
  {
    FloorIsMultiple(v, quantum);
    var f := Floor(v, quantum);
    if m > f {
      AddMultiples(f, m - f, quantum);
      NoSmallMultiple(m - f, quantum);
    }
  }

  lemma NoSmallMultiple(d: int, quantum: int)
    requires quantum != 0 && d % quantum == 0 && 0 < d
    ensures d >= quantum && d >= -quantum
  {
    var t := d / quantum;
    assert d == t * quantum;
    assert t * quantum == (-t) * (-quantum);
    if quantum > 0 {
      CancelFactor(0, t, quantum);
      ProductIsLarge(t, quantum);
    } else {
      CancelFactor(0, -t, -quantum);
      ProductIsLarge(-t, -quantum);
    }
  }

  lemma FloorsDescend(caps: seq<int>, quantum: int)
    requires quantum != 0 && Descending(caps)
    ensures Descending(Floors(caps, quantum))
  {
    hide Floor;
    forall i, j | 0 <= i < j < |caps| ensures Floor(caps[i], quantum) >= Floor(caps[j], quantum) {
      FloorIsMultiple(caps[j], quantum);
      FloorIsLargest(Floor(caps[j], quantum), caps[i], quantum);
    }
  }

  // The amount can be divided into multiples over some of the devices.
  ghost predicate HoldsMultiples(devs: seq<Device>, amount: int, quantum: int)
    requires quantum != 0
  {
    exists split :: IsSplit(split, devs, amount) && AllMultiples(split, quantum)
  }

  // The same devices with what is off the quantum taken.
  function Floored(devs: seq<Device>, quantum: int): (floored: seq<Device>)
    requires quantum != 0
    ensures |floored| == |devs|
  {
    seq(|devs|, i requires 0 <= i < |devs| =>
      Device(devs[i].id, devs[i].amount, devs[i].used + devs[i].Free() % quantum))
  }

  lemma FlooredKeeps(devs: seq<Device>, quantum: int)
    requires quantum != 0 && Distinct(devs) && Descending(Frees(devs))
    ensures Frees(Floored(devs, quantum)) == Floors(Frees(devs), quantum)
    ensures Distinct(Floored(devs, quantum)) && Descending(Frees(Floored(devs, quantum)))
  {
    hide Distinct;
    var floored := Floored(devs, quantum);
    assert forall i :: 0 <= i < |devs| ==> floored[i].id == devs[i].id;
    DistinctMeaning(devs);
    DistinctMeaning(floored);
    FloorsDescend(Frees(devs), quantum);
    assert Frees(floored) == Floors(Frees(devs), quantum);
  }

  lemma WithinFloored(split: map<DeviceId, int>, devs: seq<Device>, quantum: int)
    requires quantum != 0 && Within(split, Floored(devs, quantum))
    ensures Within(split, devs)
  {
    var floored := Floored(devs, quantum);
    forall id | id in split ensures id in Ids(devs) {
      IdsMeaning(floored, id);
      var i :| 0 <= i < |floored| && floored[i].id == id;
      assert devs[i].id == id;
      IdsMeaning(devs, id);
    }
    forall d | d in devs && d.id in split ensures 0 <= split[d.id] <= d.Free() {
      var i :| 0 <= i < |devs| && devs[i] == d;
      assert floored[i] in floored && floored[i].id == d.id;
      FloorIsMultiple(d.Free(), quantum);
    }
  }

  lemma FlooredPlan(devs: seq<Device>, amount: nat, quantum: int)
    requires quantum != 0 && Distinct(devs) && Descending(Frees(devs)) && amount % quantum == 0
    requires amount <= PositiveSum(Floors(Frees(devs), quantum))
    ensures HoldsMultiples(devs, amount, quantum)
  {
    hide Distinct, Descending, PositiveSum, FillPlan, Floors, Within, AllMultiples, FillShares;
    var floored := Floored(devs, quantum);
    FlooredKeeps(devs, quantum);
    var plan := FillPlan(floored, amount);
    FillPlanShape(floored, amount);
    WithinFloored(plan, devs, quantum);
    forall i | 0 <= i < |devs| ensures Frees(floored)[i] % quantum == 0 {
      FloorsAt(Frees(devs), quantum, i);
    }
    FillMultiples(floored, amount, quantum);
    assert IsSplit(plan, devs, amount);
  }

  lemma FloorsAt(caps: seq<int>, quantum: int, i: nat)
    requires quantum != 0 && i < |caps|
    ensures Floors(caps, quantum)[i] == Floor(caps[i], quantum) && Floors(caps, quantum)[i] % quantum == 0
  {
    FloorIsMultiple(caps[i], quantum);
  }

  lemma MultiplesAreFloored(devs: seq<Device>, amount: nat, quantum: int, split: map<DeviceId, int>)
    requires quantum != 0 && Distinct(devs) && Descending(Frees(devs))
    requires IsSplit(split, devs, amount) && AllMultiples(split, quantum)
    ensures amount <= PositiveSum(Floors(Frees(devs), quantum))
  {
    hide Distinct, Descending, PositiveSum, Floor, Align;
    var caps, aligned := Frees(devs), Align(devs, split);
    AlignCount(devs, split);
    AlignSum(devs, split);
    forall i | 0 <= i < |aligned| ensures aligned[i] <= Floors(caps, quantum)[i] {
      AlignFits(devs, split, i);
      AlignValues(devs, split, i);
      var id :| id in split && split[id] == aligned[i];
      FloorIsLargest(aligned[i], caps[i], quantum);
    }
    AtMostPositiveSum(aligned, Floors(caps, quantum));
  }

  // A division into multiples exists exactly when the amount is no more than the
  // capacities, each rounded down to the quantum, add up to.
  lemma MultiplesExactly(devs: seq<Device>, amount: nat, quantum: int)
    requires quantum != 0 && Distinct(devs) && Descending(Frees(devs)) && amount % quantum == 0
    ensures HoldsMultiples(devs, amount, quantum) <==> amount <= PositiveSum(Floors(Frees(devs), quantum))
  {
    hide Distinct, Descending, PositiveSum, Floors, IsSplit, AllMultiples;
    if split :| IsSplit(split, devs, amount) && AllMultiples(split, quantum) {
      MultiplesAreFloored(devs, amount, quantum, split);
    }
    if amount <= PositiveSum(Floors(Frees(devs), quantum)) {
      FlooredPlan(devs, amount, quantum);
    }
  }

  // EVENLY refuses for the quantum although the eligible devices could give
  // multiples, exactly when its own division is off the quantum and the rounded
  // capacities suffice.
  lemma EvenlyWrongExactly(quantum: int, slotType: SlotType, devs: seq<Device>, amount: int, minMemory: nat)
    requires Distinct(devs) && quantum != 0 && amount % quantum == 0
    requires 0 < amount <= Sum(Frees(Eligible(devs, minMemory)))
    ensures Pool(Eligible(devs, minMemory))
    ensures var pool := Eligible(devs, minMemory);
      var caps := ChosenWindow(pool, amount);
      var k, r := EvenCount(caps, amount), EvenAmount(caps, amount);
      && 0 < k
      && (SlotOutcome(Evenly(quantum), slotType, devs, amount, minMemory).error == Some(SharesNotMultiple)
          && HoldsMultiples(pool, amount, quantum)
          <==> !EvenMultiples(caps, k, r, quantum) && amount <= PositiveSum(Floors(Frees(pool), quantum)))
  {
    hide Distinct, Descending, Eligible, Sum, ChosenWindow, EvenMultiples, EvenCount, EvenAmount, SlotOutcome;
    hide HoldsMultiples, PositiveSum, Floors;
    EvenlyRefusesExactly(quantum, slotType, devs, amount, minMemory);
    MultiplesExactly(Eligible(devs, minMemory), amount, quantum);
  }

  lemma SortedMultiples(devs: seq<Device>, amount: int, quantum: int)
    requires quantum != 0
    ensures HoldsMultiples(SortByFree(devs), amount, quantum) <==> HoldsMultiples(devs, amount, quantum)
  {
    hide SortByFree, IsSplit, AllMultiples;
    if split :| IsSplit(split, devs, amount) && AllMultiples(split, quantum) {
      SortedSplit(split, devs, amount);
    }
    if split :| IsSplit(split, SortByFree(devs), amount) && AllMultiples(split, quantum) {
      SortedSplit(split, devs, amount);
    }
  }

  // The same for FILL.
  lemma FillWrongExactly(quantum: int, slotType: SlotType, devs: seq<Device>, amount: int, minMemory: nat)
    requires Distinct(devs) && quantum != 0 && amount > 0 && amount % quantum == 0
    requires (slotType == Unique ==> amount == WHOLE) && amount <= Sum(Frees(devs))
    ensures var caps := Frees(SortByFree(devs));
      SlotOutcome(Fill(quantum), slotType, devs, amount, minMemory).error == Some(SharesNotMultiple)
      && HoldsMultiples(devs, amount, quantum)
      <==>
      && amount <= PositiveSum(Floors(caps, quantum))
      && exists i :: 0 <= i < |caps| && caps[i] > 0 && Sum(caps[..i + 1]) < amount && caps[i] % quantum != 0
  {
    hide Distinct, Descending, SortByFree, Sum, HoldsMultiples, PositiveSum, Floors, SlotOutcome, IsExact;
    FillLeaks(quantum, slotType, devs, amount, minMemory);
    SortedMultiples(devs, amount, quantum);
    SortByFreeKeeps(devs);
    SortByFreeDistinct(devs);
    MultiplesExactly(SortByFree(devs), amount, quantum);
  }
}
