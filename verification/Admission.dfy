/** What the outcome of a request means: it is refused for lack of capacity
    exactly when no allocation exists, and otherwise is given exactly what it
    asks for. */
module Admission {
  import opened Options
  import opened Sums
  import opened Quanta
  import opened Sorting
  import opened WaterFilling
  import opened Devices
  import opened EvenSplit
  import opened Filling
  import opened Ledgers
  import opened Requests

  lemma PermutedWithin(split: map<DeviceId, int>, a: seq<Device>, b: seq<Device>)
    requires multiset(a) == multiset(b) && Within(split, a)
    ensures Within(split, b)
  {
    forall id | id in split ensures id in Ids(b) {
      IdsMeaning(a, id);
      var i :| 0 <= i < |a| && a[i].id == id;
      assert a[i] in multiset(b);
      IdsMeaning(b, id);
    }
    forall d | d in b ensures d in a {
      assert d in multiset(a);
    }
  }

  lemma SortedSplit(split: map<DeviceId, int>, devs: seq<Device>, amount: int)
    ensures IsSplit(split, SortByFree(devs), amount) <==> IsSplit(split, devs, amount)
  {
    SortByFreeKeeps(devs);
    if Within(split, devs) {
      PermutedWithin(split, devs, SortByFree(devs));
    }
    if Within(split, SortByFree(devs)) {
      PermutedWithin(split, SortByFree(devs), devs);
    }
  }

  lemma EligibleWithin(split: map<DeviceId, int>, devs: seq<Device>, minMemory: nat)
    requires Distinct(devs) && Within(split, Eligible(devs, minMemory))
    ensures Within(split, devs)
  {
    var sorted := SortByFree(devs);
    SortByFreeKeeps(devs);
    SortByFreeDistinct(devs);
    var k := AtLeastIsPrefix(sorted, minMemory);
    assert sorted[0..k] == sorted[..k];
    WithinSlice(split, sorted, 0, k);
    PermutedWithin(split, sorted, devs);
  }

  // The devices can hold the amount in some way.
  ghost predicate Holds(devs: seq<Device>, amount: int) {
    exists split :: IsSplit(split, devs, amount)
  }

  lemma HoldsUpToPositiveSum(devs: seq<Device>, amount: nat)
    requires Distinct(devs) && Descending(Frees(devs))
    ensures Holds(devs, amount) <==> amount <= PositiveSum(Frees(devs))
  {
    if split :| IsSplit(split, devs, amount) {
      var aligned := Align(devs, split);
      AlignCount(devs, split);
      AlignSum(devs, split);
      forall i | 0 <= i < |aligned| ensures aligned[i] <= Frees(devs)[i] {
        AlignFits(devs, split, i);
      }
      AtMostPositiveSum(aligned, Frees(devs));
    }
    if amount <= PositiveSum(Frees(devs)) {
      FillPlanShape(devs, amount);
      assert IsSplit(FillPlan(devs, amount), devs, amount);
    }
  }

  lemma {:induction false} TruncatedIsNoMore(caps: seq<int>)
    ensures TruncatedSum(caps) <= PositiveSum(caps)
  {
    if caps != [] {
      TruncatedIsNoMore(caps[..|caps| - 1]);
      PositiveSumLast(caps);
    }
  }

  lemma {:induction false} PositiveSumLast(caps: seq<int>)
    requires caps != []
    ensures PositiveSum(caps) == PositiveSum(caps[..|caps| - 1]) + Positive(caps[|caps| - 1])
  {
    var n := |caps| - 1;
    if n > 0 {
      PositiveSumLast(caps[1..]);
      assert caps[1..][..n - 1] == caps[..n][1..];
    }
  }

  lemma {:induction false} TruncatedIsSum(caps: seq<int>)
    requires forall i :: 0 <= i < |caps| ==> caps[i] % WHOLE == 0
    ensures TruncatedSum(caps) == Sum(caps)
  {
    if caps != [] {
      TruncatedIsSum(caps[..|caps| - 1]);
    }
  }

  ghost predicate IsExact(plan: map<DeviceId, int>, devs: seq<Device>, amount: int) {
    IsSplit(plan, devs, amount) && forall id :: id in plan ==> plan[id] > 0
  }

  lemma EvenPlanIsExact(devs: seq<Device>, amount: int, minMemory: nat)
    requires Distinct(devs) && 0 < amount <= Sum(Frees(Eligible(devs, minMemory))) && Pool(Eligible(devs, minMemory))
    ensures IsExact(EvenPlan(Eligible(devs, minMemory), amount), devs, amount)
  {
    hide Eligible, Descending, Distinct, Within, Unevenness, SharesAt;
    var pool := Eligible(devs, minMemory);
    var plan := EvenPlan(pool, amount);
    WindowPlanShape(pool, amount, PlanStart(Frees(pool), amount), PlanSize(Frees(pool), amount));
    EligibleWithin(plan, devs, minMemory);
    forall id | id in plan ensures plan[id] > 0 {
      EvenPlanIsPositive(pool, amount, id);
    }
  }

  lemma FillPlanIsExact(devs: seq<Device>, amount: nat)
    requires Distinct(devs) && amount <= PositiveSum(Frees(SortByFree(devs)))
    ensures IsExact(FillPlan(SortByFree(devs), amount), devs, amount)
  {
    hide FillPlan, SortByFree, Distinct, Within, PositiveSum, Descending;
    var plan := FillPlan(SortByFree(devs), amount);
    SortByFreeKeeps(devs);
    SortByFreeDistinct(devs);
    FillPlanShape(SortByFree(devs), amount);
    SortedSplit(plan, devs, amount);
    forall id | id in plan ensures plan[id] > 0 {
      assert plan[id] in plan.Values;
    }
  }

  // A request that is admitted is planned in full: positive shares within what
  // is free, adding up to the amount.
  lemma PlanIsExact(strategy: Strategy, devs: seq<Device>, amount: int, minMemory: nat)
    requires Distinct(devs) && 0 < amount <= Allocatable(strategy, devs, minMemory)
    ensures IsExact(Plan(strategy, devs, amount, minMemory), devs, amount)
  {
    hide IsExact, Eligible, EvenPlan, FillPlan, SortByFree, Distinct, TruncatedSum, PositiveSum, Sum, Pool, Descending;
    if strategy.Evenly? {
      EligibleIsPool(devs, minMemory);
      EvenPlanIsExact(devs, amount, minMemory);
    } else {
      SortByFreeKeeps(devs);
      TruncatedIsNoMore(Frees(SortByFree(devs)));
      FillTotal(Frees(SortByFree(devs)), amount);
      FillPlanIsExact(devs, amount);
    }
  }

  // The split uses only devices with at least the given amount free.
  ghost predicate OnlyFrom(split: map<DeviceId, int>, devs: seq<Device>, free: int) {
    forall d :: d in devs && d.id in split ==> d.Free() >= free
  }

  // EVENLY refuses for lack of capacity exactly when the amount cannot be divided
  // in any way over devices with at least min_memory free.
  lemma EvenlyAdmission(quantum: int, slotType: SlotType, devs: seq<Device>, amount: int, minMemory: nat)
    requires Distinct(devs) && amount > 0 && quantum != 0
    ensures SlotOutcome(Evenly(quantum), slotType, devs, amount, minMemory).error == Some(InsufficientAmount)
      <==> !exists split :: IsSplit(split, devs, amount) && OnlyFrom(split, devs, minMemory)
  {
    hide Eligible, Distinct, IsSplit, PositiveSum, Plan, OnlyFrom;
    var pool := Eligible(devs, minMemory);
    EligibleIsPool(devs, minMemory);
    HoldsUpToPositiveSum(pool, amount);
    NothingNegative(Frees(pool));
    if split :| IsSplit(split, pool, amount) {
      EligibleMeaning(split, devs, amount, minMemory);
    }
    if split :| IsSplit(split, devs, amount) && OnlyFrom(split, devs, minMemory) {
      EligibleMeaning(split, devs, amount, minMemory);
    }
  }

  // What is granted comes from such devices only.
  lemma EvenlyHeedsMemory(quantum: int, slotType: SlotType, devs: seq<Device>, amount: int, minMemory: nat)
    requires Distinct(devs) && amount > 0 && quantum != 0
    ensures OnlyFrom(SlotOutcome(Evenly(quantum), slotType, devs, amount, minMemory).committed, devs, minMemory)
  {
    hide Eligible, Distinct, IsSplit, WindowPlan, Unevenness, SharesAt, AllMultiples, Sum;
    var pool := Eligible(devs, minMemory);
    if amount <= Allocatable(Evenly(quantum), devs, minMemory) {
      EligibleIsPool(devs, minMemory);
      var plan := EvenPlan(pool, amount);
      WindowPlanShape(pool, amount, PlanStart(Frees(pool), amount), PlanSize(Frees(pool), amount));
      EligibleMeaning(plan, devs, amount, minMemory);
    }
  }

  // The filling strategies count an over-allocated device as negative capacity,
  // and the discrete one drops fractions of a device, so they refuse wrongly
  // exactly when the amount lies between their total and what is really free.
  lemma FillingAdmission(strategy: Strategy, slotType: SlotType, devs: seq<Device>, amount: int, minMemory: nat)
    requires Distinct(devs) && amount > 0 && !strategy.Evenly? && (strategy.Fill? ==> strategy.quantum != 0)
    requires slotType == Unique ==> amount == WHOLE
    ensures var total := Allocatable(strategy, devs, minMemory);
      var refused := SlotOutcome(strategy, slotType, devs, amount, minMemory).error == Some(InsufficientAmount);
      && (refused <==> total < amount)
      && ((refused <==> !Holds(devs, amount)) <==> !(total < amount <= PositiveSum(Frees(SortByFree(devs)))))
  {
    hide SortByFree, Distinct, Holds, PositiveSum, Plan, Sum, FillShares, TruncatedSum;
    var sorted := SortByFree(devs);
    SortByFreeKeeps(devs);
    SortByFreeDistinct(devs);
    HoldsSorted(devs, amount);
    HoldsUpToPositiveSum(sorted, amount);
    FillTotal(Frees(sorted), amount);
    TruncatedIsNoMore(Frees(sorted));
  }

  // Both happen.  The discrete map refuses 3.00 over two devices with 1.50 free ...
  lemma FractionsAreRefused(a: DeviceId, b: DeviceId)
    requires a != b
    ensures var devs := [Device(a, 150, 0), Device(b, 150, 0)];
      && Distinct(devs) && Holds(devs, 300)
      && SlotOutcome(Discrete, Count, devs, 300, 0).error == Some(InsufficientAmount)
  {
    var first, second := Device(a, 150, 0), Device(b, 150, 0);
    var devs := [first, second];
    DistinctMeaning(devs);
    TwoDevicesSorted(first, second);
    TwoShares(first, second, 150, 150);
    assert IsSplit(map[a := 150, b := 150], devs, 300);
    var caps := Frees(devs);
    assert caps == [150, 150] && caps[..1] == [150] && [150][..0] == [];
    assert TruncatedSum([150]) == 100;
  }

  // ... and FILL refuses 1.50 when one device has 2.00 free and another one is
  // over-allocated by 1.00.
  lemma OverAllocationIsCounted(a: DeviceId, b: DeviceId, quantum: int, minMemory: nat)
    requires a != b && quantum != 0
    ensures var devs := [Device(a, 200, 0), Device(b, 100, 200)];
      && Distinct(devs) && Holds(devs, 150)
      && SlotOutcome(Fill(quantum), Count, devs, 150, minMemory).error == Some(InsufficientAmount)
  {
    var devs, split := [Device(a, 200, 0), Device(b, 100, 200)], map[a := 150];
    DistinctMeaning(devs);
    SortByFreeKeeps(devs);
    var caps := Frees(devs);
    assert caps == [200, -100] && caps[..1] == [200] && [200][..0] == [];
    assert Sum([200]) == 200 && Sum(caps) == 100;
    assert devs[0].id == a;
    IdsMeaning(devs, a);
    MapSumRemove(split, a);
    assert split - {a} == map[];
    assert IsSplit(split, devs, 150);
  }

  // With no device over-allocated (and, for the discrete map, only whole
  // devices free) a request is refused exactly when it cannot be held.
  lemma FillingAdmissionExact(strategy: Strategy, slotType: SlotType, devs: seq<Device>, amount: int, minMemory: nat)
    requires Distinct(devs) && amount > 0 && !strategy.Evenly? && (strategy.Fill? ==> strategy.quantum != 0)
    requires slotType == Unique ==> amount == WHOLE
    requires forall d :: d in devs ==> d.Free() >= 0 && (strategy.Discrete? ==> d.Free() % WHOLE == 0)
    ensures SlotOutcome(strategy, slotType, devs, amount, minMemory).error == Some(InsufficientAmount)
      <==> !Holds(devs, amount)
    ensures Holds(devs, amount) <==> amount <= Sum(Frees(devs))
  {
    hide SortByFree, Distinct, Holds, PositiveSum, Plan, Sum, TruncatedSum;
    var sorted := SortByFree(devs);
    SortByFreeKeeps(devs);
    forall i | 0 <= i < |sorted| ensures sorted[i] in devs {
      assert sorted[i] in multiset(devs);
    }
    NothingNegative(Frees(sorted));
    if strategy.Discrete? {
      TruncatedIsSum(Frees(sorted));
    }
    FillingAdmission(strategy, slotType, devs, amount, minMemory);
  }

  lemma HoldsSorted(devs: seq<Device>, amount: int)
    ensures Holds(SortByFree(devs), amount) <==> Holds(devs, amount)
  {
    hide SortByFree, IsSplit;
    if split :| IsSplit(split, devs, amount) {
      SortedSplit(split, devs, amount);
    }
    if split :| IsSplit(split, SortByFree(devs), amount) {
      SortedSplit(split, devs, amount);
    }
  }

  // The splits over the eligible devices are those over devices with enough free.
  lemma EligibleMeaning(split: map<DeviceId, int>, devs: seq<Device>, amount: int, minMemory: nat)
    requires Distinct(devs)
    ensures IsSplit(split, Eligible(devs, minMemory), amount)
      <==> IsSplit(split, devs, amount) && OnlyFrom(split, devs, minMemory)
  {
    hide Distinct, Eligible, OnlyFrom;
    if Within(split, Eligible(devs, minMemory)) {
      EligibleWithin(split, devs, minMemory);
      EligibleOnly(split, devs, minMemory);
    }
    if Within(split, devs) && OnlyFrom(split, devs, minMemory) {
      EligibleSplit(split, devs, minMemory);
    }
  }

  lemma EligibleOnly(split: map<DeviceId, int>, devs: seq<Device>, minMemory: nat)
    requires Distinct(devs) && split.Keys <= Ids(Eligible(devs, minMemory))
    ensures OnlyFrom(split, devs, minMemory)
  {
    hide Distinct, Ids;
    var sorted, pool := SortByFree(devs), Eligible(devs, minMemory);
    SortByFreeKeeps(devs);
    var k := AtLeastIsPrefix(sorted, minMemory);
    DistinctMeaning(devs);
    forall d | d in devs && d.id in split ensures d.Free() >= minMemory {
      IdsMeaning(pool, d.id);
      var i :| 0 <= i < |pool| && pool[i].id == d.id;
      assert pool[i] == sorted[i] && sorted[i] in multiset(devs);
      assert pool[i] == d;
    }
  }

  lemma EligibleSplit(split: map<DeviceId, int>, devs: seq<Device>, minMemory: nat)
    requires Distinct(devs) && Within(split, devs) && OnlyFrom(split, devs, minMemory)
    ensures Within(split, Eligible(devs, minMemory))
  {
    hide Distinct;
    var sorted, pool := SortByFree(devs), Eligible(devs, minMemory);
    SortByFreeKeeps(devs);
    var k := AtLeastIsPrefix(sorted, minMemory);
    forall d | d in sorted ensures d in devs {
      assert d in multiset(devs);
    }
    forall id | id in split ensures id in Ids(pool) {
      IdsMeaning(devs, id);
      var d :| d in devs && d.id == id;
      assert d in multiset(sorted);
      var i :| 0 <= i < |sorted| && sorted[i] == d;
      assert pool[i] == d;
      IdsMeaning(pool, id);
    }
  }

  // A request that EVENLY grants is divided as evenly as any division of the
  // amount over any of the eligible devices, and over the fewest devices among
  // the equally even ones; every device involved gives something.
  lemma EvenlyIsOptimal(quantum: int, slotType: SlotType, devs: seq<Device>, amount: int, minMemory: nat,
    split: map<DeviceId, int>)
    requires Distinct(devs) && amount > 0 && quantum != 0
    requires SlotOutcome(Evenly(quantum), slotType, devs, amount, minMemory).error == None
    requires IsSplit(split, devs, amount) && OnlyFrom(split, devs, minMemory)
    ensures var granted := SlotOutcome(Evenly(quantum), slotType, devs, amount, minMemory).committed;
      && IsExact(granted, devs, amount) && OnlyFrom(granted, devs, minMemory)
      && granted.Values != {} && split.Values != {}
      && (Spread(granted.Values) < Spread(split.Values)
          || (Spread(granted.Values) == Spread(split.Values) && |granted| <= |split|))
  {
    hide Distinct, Descending, Eligible, EvenPlan, IsSplit, IsExact, Sum, OnlyFrom;
    PlanIsExact(Evenly(quantum), devs, amount, minMemory);
    EligibleIsPool(devs, minMemory);
    EligibleMeaning(split, devs, amount, minMemory);
    EvenlyHeedsMemory(quantum, slotType, devs, amount, minMemory);
    EvenPlanIsOptimal(Eligible(devs, minMemory), amount, split);
  }

  // ------------------------------------------------------------ FILL's late check

  // FILL ends in an error with its shares already entered exactly when, from the
  // most free device on, one that does not suffice yet is off the quantum.
  lemma FillLeaks(quantum: int, slotType: SlotType, devs: seq<Device>, amount: int, minMemory: nat)
    requires Distinct(devs) && amount > 0 && quantum != 0 && amount % quantum == 0
    requires (slotType == Unique ==> amount == WHOLE) && amount <= Sum(Frees(devs))
    ensures var outcome := SlotOutcome(Fill(quantum), slotType, devs, amount, minMemory);
      var caps := Frees(SortByFree(devs));
      && IsExact(outcome.committed, devs, amount)
      && (outcome.error == Some(SharesNotMultiple) <==>
          exists i :: 0 <= i < |caps| && caps[i] > 0 && Sum(caps[..i + 1]) < amount && caps[i] % quantum != 0)
      && (outcome.error == None || outcome.error == Some(SharesNotMultiple))
  {
    hide SortByFree, Distinct, FillShares, Sum, IsExact, IsSplit, PositiveSum;
    var sorted := SortByFree(devs);
    SortByFreeKeeps(devs);
    SortByFreeDistinct(devs);
    PlanIsExact(Fill(quantum), devs, amount, minMemory);
    FillTotal(Frees(sorted), amount);
    FillMultiples(sorted, amount, quantum);
    forall i | 0 <= i < |sorted|
      ensures i < |FillShares(Frees(sorted), amount)| - 1 <==>
        Frees(sorted)[i] > 0 && Sum(Frees(sorted)[..i + 1]) < amount
    {
      FillGoesOn(Frees(sorted), amount, i);
    }
  }

  lemma AssignMultiples(window: seq<Device>, shares: seq<int>, quantum: int)
    requires Distinct(window) && |window| == |shares| && quantum != 0
    ensures AllMultiples(Assign(window, shares), quantum) <==> Multiples(shares, quantum)
  {
    hide Distinct;
    var plan := Assign(window, shares);
    AssignKeys(window, shares);
    forall i | 0 <= i < |shares| ensures window[i].id in plan && plan[window[i].id] == shares[i] {
      AssignAt(window, shares, i);
    }
    forall id | id in plan ensures exists i :: 0 <= i < |shares| && window[i].id == id {
      IdsMeaning(window, id);
    }
  }

  lemma FillMultiples(devs: seq<Device>, amount: nat, quantum: int)
    requires Distinct(devs) && Descending(Frees(devs)) && quantum != 0 && amount % quantum == 0
    requires amount <= PositiveSum(Frees(devs))
    ensures AllMultiples(FillPlan(devs, amount), quantum) <==>
      forall i :: 0 <= i < |FillShares(Frees(devs), amount)| - 1 ==> Frees(devs)[i] % quantum == 0
  {
    hide FillShares, PositiveSum, Distinct, Descending, Sum;
    var caps := Frees(devs);
    var shares := FillShares(caps, amount);
    var k := |shares|;
    SliceDistinct(devs, 0, k);
    assert devs[0..k] == devs[..k];
    AssignMultiples(devs[..k], shares, quantum);
    FillTotal(caps, amount);
    forall i | 0 <= i < k - 1 ensures shares[i] == caps[i] {
      FillUsesUp(caps, amount, i);
    }
    if k > 0 {
      LastMultiple(shares, quantum);
    }
  }

  // Such requests exist: 2.00 over devices with 1.50 and 1.00 free, in whole units.
  lemma FillLeakHappens(a: DeviceId, b: DeviceId)
    requires a != b
    ensures var devs := [Device(a, 150, 0), Device(b, 100, 0)];
      Distinct(devs) && SlotOutcome(Fill(100), Count, devs, 200, 0)
        == Outcome(map[a := 150, b := 50], Some(SharesNotMultiple))
  {
    var first, second := Device(a, 150, 0), Device(b, 100, 0);
    var devs := [first, second];
    DistinctMeaning(devs);
    TwoDevicesSorted(first, second);
    var caps := Frees(devs);
    assert caps == [150, 100] && caps[1..] == [100] && caps[..1] == [150] && caps[..0] == [];
    assert [150][..0] == [] && Sum([150]) == 150;
    assert Sum(caps) == Sum(caps[..1]) + 100;
    assert FillShares([100], 50) == [50] by {
      assert [100][1..] == [];
    }
    assert FillShares(caps, 200) == [150, 50];
    var shares := [150, 50];
    assert devs[..1] == [first] && shares[..1] == [150] && devs[..1][..0] == [] && shares[..1][..0] == [];
    assert Assign(devs[..1], shares[..1]) == map[a := 150];
    assert devs[..2] == devs;
    assert Assign(devs, shares) == map[a := 150, b := 50];
    assert map[a := 150, b := 50][a] % 100 == 50;
  }

  // ---------------------------------------------------------- EVENLY's quantum check

  // The window EVENLY divides the amount over.
  ghost function ChosenWindow(pool: seq<Device>, amount: nat): (caps: seq<int>)
    requires Pool(pool) && 0 < amount <= Sum(Frees(pool))
    ensures Capacities(caps) && |caps| > 0
  {
    var caps := Frees(pool);
    caps[PlanStart(caps, amount)..PlanStart(caps, amount) + PlanSize(caps, amount)]
  }

  // An even division consists of multiples if it leaves no remainder and the
  // common share is one, as are the capacities used up before.
  predicate EvenMultiples(caps: seq<int>, k: nat, r: nat, quantum: int)
    requires quantum != 0 && 0 < k <= |caps|
  {
    || quantum == 1 || quantum == -1
    || (r % k == 0 && (r / k) % quantum == 0 && Multiples(caps[k..], quantum))
  }

  lemma DivisionMultiples(caps: seq<int>, k: nat, r: nat, quantum: int)
    requires quantum != 0 && 0 < k <= |caps|
    ensures Multiples(EvenShares(k, r) + caps[k..], quantum) <==> EvenMultiples(caps, k, r, quantum)
  {
    hide EvenShares;
    var shares := EvenShares(k, r) + caps[k..];
    EvenSharesAt(k, r);
    assert forall i :: 0 <= i < k ==> shares[i] == r / k + if i < r % k then 1 else 0;
    assert forall i :: k <= i < |caps| ==> shares[i] == caps[k..][i - k];
    if quantum == 1 || quantum == -1 {
      forall i | 0 <= i < |shares| ensures shares[i] % quantum == 0 {
        UnitDivides(shares[i], quantum);
      }
    } else {
      UnitQuantum(quantum);
      if Multiples(shares, quantum) {
        assert shares[k - 1] == r / k && shares[k - 1] % quantum == 0;
        AddMultiples(r / k, 1, quantum);
        assert shares[0] % quantum == 0;
        forall i | 0 <= i < |caps[k..]| ensures caps[k..][i] % quantum == 0 {
          assert shares[k + i] == caps[k..][i];
        }
      }
    }
  }

  lemma WindowMultiples(window: seq<Device>, amount: nat, quantum: int)
    requires Pool(window) && |window| > 0 && amount <= Sum(Frees(window)) && quantum != 0
    ensures var caps := Frees(window);
      var k, r := EvenCount(caps, amount), EvenAmount(caps, amount);
      0 < k && (AllMultiples(Assign(window, WaterFill(caps, amount)), quantum) <==> EvenMultiples(caps, k, r, quantum))
  {
    hide Distinct, Descending, Sum, WaterFill, EvenMultiples, EvenCount, EvenAmount;
    var caps := Frees(window);
    AssignMultiples(window, WaterFill(caps, amount), quantum);
    NothingIsReached(caps, amount);
    WaterFillShape(caps, amount, 0);
    DivisionMultiples(caps, EvenCount(caps, amount), EvenAmount(caps, amount), quantum);
  }

  lemma EvenPlanMultiples(pool: seq<Device>, amount: nat, quantum: int)
    requires Pool(pool) && 0 < amount <= Sum(Frees(pool)) && quantum != 0
    ensures var caps := ChosenWindow(pool, amount);
      var k, r := EvenCount(caps, amount), EvenAmount(caps, amount);
      0 < k && (AllMultiples(EvenPlan(pool, amount), quantum) <==> EvenMultiples(caps, k, r, quantum))
  {
    hide Distinct, Descending, Sum, WaterFill, EvenMultiples, EvenCount, EvenAmount, Unevenness, Assign;
    var all := Frees(pool);
    var lo, n := PlanStart(all, amount), PlanSize(all, amount);
    PoolSlice(pool, lo, n);
    WindowSumIsSum(all, lo, n);
    WindowMultiples(pool[lo..lo + n], amount, quantum);
  }

  // EVENLY finds enough and still refuses, exactly when the division it has
  // chosen is not one into multiples.
  lemma EvenlyRefusesExactly(quantum: int, slotType: SlotType, devs: seq<Device>, amount: int, minMemory: nat)
    requires Distinct(devs) && quantum != 0 && 0 < amount <= Sum(Frees(Eligible(devs, minMemory)))
    ensures Pool(Eligible(devs, minMemory))
    ensures var caps := ChosenWindow(Eligible(devs, minMemory), amount);
      var k, r := EvenCount(caps, amount), EvenAmount(caps, amount);
      && 0 < k
      && (SlotOutcome(Evenly(quantum), slotType, devs, amount, minMemory).error == Some(SharesNotMultiple)
          <==> !EvenMultiples(caps, k, r, quantum))
  {
    hide Pool, Distinct, Eligible, Sum, ChosenWindow, EvenMultiples, EvenCount, EvenAmount, EvenPlan, AllMultiples;
    EligibleIsPool(devs, minMemory);
    EvenPlanMultiples(Eligible(devs, minMemory), amount, quantum);
  }

  lemma TwoEqualDevices(caps: seq<int>)
    requires caps == [200, 200]
    ensures Capacities(caps) && Sum(caps) == 400 && PlanSize(caps, 300) == 2 && PlanStart(caps, 300) == 0
  {
    assert caps[..1] == [200] && [200][..0] == [] && Sum([200]) == 200;
    assert WindowSum(caps, 0, 1) == 200 && WindowSum(caps, 0, 2) == 400;
    LeastCountIs(caps, 300, 2);
    assert |Tops(caps, 300)| == 1 && |Scores(caps, 300, 2)| == 1;
  }

  // It refuses although another division would do: 3.00 over two devices with
  // 2.00 free each, in whole units.
  lemma EvenlyMissesMultiples(a: DeviceId, b: DeviceId)
    requires a != b
    ensures var devs, split := [Device(a, 200, 0), Device(b, 200, 0)], map[a := 200, b := 100];
      && Distinct(devs)
      && SlotOutcome(Evenly(100), Count, devs, 300, 0) == Outcome(map[], Some(SharesNotMultiple))
      && IsSplit(split, devs, 300) && AllMultiples(split, 100)
  {
    var first, second := Device(a, 200, 0), Device(b, 200, 0);
    var devs, split := [first, second], map[a := 200, b := 100];
    DistinctMeaning(devs);
    TwoDevicesSorted(first, second);
    EligibleIsPool(devs, 0);
    var caps := Frees(devs);
    assert caps == [200, 200];
    TwoEqualDevices(caps);
    EvenlyRefusesExactly(100, Count, devs, 300, 0);
    assert caps[0..0 + 2] == caps && ChosenWindow(devs, 300) == caps;
    assert EvenCount(caps, 300) == 2 && EvenAmount(caps, 300) == 300;
    assert !EvenMultiples(caps, 2, 300, 100);
    TwoShares(first, second, 200, 100);
  }

  lemma TwoShares(first: Device, second: Device, x: nat, y: nat)
    requires first.id != second.id && x <= first.Free() && y <= second.Free()
    ensures IsSplit(map[first.id := x, second.id := y], [first, second], x + y)
  {
    var devs, split := [first, second], map[first.id := x, second.id := y];
    assert devs[0].id == first.id && devs[1].id == second.id;
    IdsMeaning(devs, first.id);
    IdsMeaning(devs, second.id);
    MapSumRemove(split, first.id);
    assert split - {first.id} == map[second.id := y];
    MapSumRemove(map[second.id := y], second.id);
    assert map[second.id := y] - {second.id} == map[];
  }

  lemma TwoDevicesSorted(first: Device, second: Device)
    requires first.Free() >= second.Free() >= 0
    ensures var devs := [first, second];
      SortByFree(devs) == devs && Eligible(devs, 0) == devs
  {
    var devs := [first, second];
    assert devs[1..] == [second] && [second][1..] == [];
    assert SortBy([second], FreeOf) == [second];
    assert devs[..1] == [first] && [first][..0] == [];
    assert AtLeast([first], 0) == [first];
  }
}
