/** The EVENLY strategy for one slot: which devices share a request, and how
    much each of them gives. */
module EvenSplit {
  import opened Sums
  import opened WaterFilling
  import opened Devices

  // Eligible devices, most free first.
  ghost predicate Pool(devs: seq<Device>) {
    Capacities(Frees(devs)) && Distinct(devs)
  }

  // ------------------------------------------------ windows of a fixed size

  function WindowSum(caps: seq<int>, lo: nat, n: nat): int
    requires lo + n <= |caps|
  {
    if n == 0 then 0 else WindowSum(caps, lo, n - 1) + caps[lo + n - 1]
  }

  lemma {:induction false} WindowSumIsSum(caps: seq<int>, lo: nat, n: nat)
    requires lo + n <= |caps|
    ensures WindowSum(caps, lo, n) == Sum(caps[lo..lo + n])
  {
    if n > 0 {
      WindowSumIsSum(caps, lo, n - 1);
      assert caps[lo..lo + n][..n - 1] == caps[lo..lo + n - 1];
    }
  }

  lemma {:induction false} SlideSum(caps: seq<int>, lo: nat, n: nat)
    requires lo + n < |caps|
    ensures WindowSum(caps, lo + 1, n) == WindowSum(caps, lo, n) - caps[lo] + caps[lo + n]
  {
    if n > 0 {
      SlideSum(caps, lo, n - 1);
    }
  }

  predicate Enough(caps: seq<int>, amount: int, lo: nat, n: nat) {
    lo + n <= |caps| && WindowSum(caps, lo, n) >= amount
  }

  function SharesAt(caps: seq<int>, amount: nat, lo: nat, n: nat): (shares: seq<int>)
    requires Capacities(caps) && lo + n <= |caps|
    ensures |shares| == n
  {
    WaterFill(caps[lo..lo + n], amount)
  }

  ghost function Unevenness(caps: seq<int>, amount: nat, lo: nat, n: nat): int
    requires Capacities(caps) && lo + n <= |caps| && n > 0
  {
    SpreadOf(SharesAt(caps, amount, lo, n))
  }

  ghost predicate Dominates(big: seq<int>, small: seq<int>) {
    |big| == |small| && forall i :: 0 <= i < |big| ==> small[i] <= big[i]
  }

  lemma LargerCapacitiesAreMoreEven(big: seq<int>, small: seq<int>, amount: nat)
    requires Capacities(big) && Capacities(small) && |big| > 0 && Dominates(big, small)
    requires amount <= Sum(small)
    ensures SpreadOf(WaterFill(big, amount)) <= SpreadOf(WaterFill(small, amount))
  {
    NothingIsReached(small, amount);
    var level := WaterFillLevel(small, amount, 0);
    WaterFillMinimisesSpread(big, amount, WaterFill(small, amount));
  }

  lemma LowerWindowIsSmaller(caps: seq<int>, lo: nat, hi: nat, n: nat)
    requires Capacities(caps) && lo <= hi && hi + n <= |caps|
    ensures Capacities(caps[lo..lo + n]) && Capacities(caps[hi..hi + n])
    ensures Dominates(caps[lo..lo + n], caps[hi..hi + n])
    ensures WindowSum(caps, hi, n) == Sum(caps[hi..hi + n]) <= WindowSum(caps, lo, n)
  {
    var big, small := caps[lo..lo + n], caps[hi..hi + n];
    forall i | 0 <= i < n ensures small[i] <= big[i] {
      assert lo < hi ==> caps[lo + i] >= caps[hi + i];
    }
    WindowSumIsSum(caps, lo, n);
    WindowSumIsSum(caps, hi, n);
    SumLe(small, big);
  }

  // Sliding a window towards smaller devices never makes an infeasible window
  // feasible and never improves evenness.
  lemma SlideNeverImproves(caps: seq<int>, amount: nat, lo: nat, hi: nat, n: nat)
    requires Capacities(caps) && n > 0 && lo <= hi && Enough(caps, amount, hi, n)
    ensures Enough(caps, amount, lo, n)
    ensures Unevenness(caps, amount, lo, n) <= Unevenness(caps, amount, hi, n)
  {
    hide WaterFill, SpreadOf, Descending, WindowSum, Sum;
    LowerWindowIsSmaller(caps, lo, hi, n);
    LargerCapacitiesAreMoreEven(caps[lo..lo + n], caps[hi..hi + n], amount);
  }

  // The unevenness of each window of size n, topmost first; -1 if infeasible.
  ghost function Score(caps: seq<int>, amount: nat, lo: nat, n: nat): int
    requires Capacities(caps) && n > 0 && lo + n <= |caps|
  {
    if Enough(caps, amount, lo, n) then Unevenness(caps, amount, lo, n) else -1
  }

  ghost function Scores(caps: seq<int>, amount: nat, n: nat): (s: seq<int>)
    requires Capacities(caps) && 0 < n <= |caps|
    ensures |s| == |caps| - n + 1
  {
    seq(|caps| - n + 1, lo requires 0 <= lo <= |caps| - n => Score(caps, amount, lo, n))
  }

  ghost predicate Worsening(s: seq<int>) {
    forall i, j :: 0 <= i < j < |s| && s[j] != -1 ==> -1 < s[i] <= s[j]
  }

  lemma ScoresWorsen(caps: seq<int>, amount: nat, n: nat)
    requires Capacities(caps) && 0 < n <= |caps|
    ensures Worsening(Scores(caps, amount, n))
  {
    hide WaterFill;
    var s := Scores(caps, amount, n);
    forall i, j | 0 <= i < j < |s| && s[j] != -1 ensures -1 < s[i] <= s[j] {
      SlideNeverImproves(caps, amount, i, j, n);
      SpreadNonNegative(SharesAt(caps, amount, i, n));
    }
  }

  // The window kept for a size, found by looking at every window: the one
  // furthest down that is feasible and as even as the topmost.
  ghost function LastTie(s: seq<int>): (k: nat)
    requires s != []
    ensures k < |s| && s[k] == s[0]
    ensures forall i :: k < i < |s| ==> s[i] != s[0]
  {
    if s[|s| - 1] == s[0] then |s| - 1 else LastTie(s[..|s| - 1])
  }

  // An infeasible or less even window ends the search: none below it ties.
  lemma NothingBelowTies(s: seq<int>, idx: nat)
    requires Worsening(s) && 0 < idx <= |s| && s[0] != -1 && s[idx - 1] == s[0]
    requires idx < |s| ==> s[idx] != s[0]
    ensures LastTie(s) == idx - 1
  {
    forall j | idx < j < |s| ensures s[j] != s[0] {
      assert s[j] != -1 ==> s[idx] <= s[j];
    }
  }

  // ------------------------------------------------------- number of devices

  // The smallest number of devices, at most n, that can hold the amount.
  ghost function LeastUpTo(caps: seq<int>, amount: nat, n: nat): (least: nat)
    requires Capacities(caps) && Enough(caps, amount, 0, n)
    ensures least <= n && Enough(caps, amount, 0, least)
    ensures forall k :: 0 <= k < least ==> !Enough(caps, amount, 0, k)
  {
    if n > 0 && Enough(caps, amount, 0, n - 1) then LeastUpTo(caps, amount, n - 1)
    else
      FewerAreNotEnough(caps, amount, n);
      n
  }

  lemma {:induction false} MoreHoldMore(caps: seq<int>, k: nat, n: nat)
    requires Capacities(caps) && k <= n <= |caps|
    ensures WindowSum(caps, 0, k) <= WindowSum(caps, 0, n)
  {
    if k < n {
      MoreHoldMore(caps, k, n - 1);
    }
  }

  lemma FewerAreNotEnough(caps: seq<int>, amount: nat, n: nat)
    requires Capacities(caps) && n <= |caps| && (n > 0 ==> !Enough(caps, amount, 0, n - 1))
    ensures forall k :: 0 <= k < n ==> !Enough(caps, amount, 0, k)
  {
    forall k | 0 <= k < n ensures !Enough(caps, amount, 0, k) {
      MoreHoldMore(caps, k, n - 1);
    }
  }

  ghost function LeastCount(caps: seq<int>, amount: nat): (least: nat)
    requires Capacities(caps) && 0 < amount <= Sum(caps)
    ensures 0 < least <= |caps| && Enough(caps, amount, 0, least)
    ensures forall k :: 0 <= k < least ==> !Enough(caps, amount, 0, k)
  {
    WindowSumIsSum(caps, 0, |caps|);
    assert caps[0..0 + |caps|] == caps;
    LeastUpTo(caps, amount, |caps|)
  }

  lemma LeastCountIs(caps: seq<int>, amount: nat, n: nat)
    requires Capacities(caps) && 0 < amount <= Sum(caps) && Enough(caps, amount, 0, n)
    requires n > 0 ==> !Enough(caps, amount, 0, n - 1)
    ensures LeastCount(caps, amount) == n
  {
    var least := LeastCount(caps, amount);
    if least < n {
      MoreHoldMore(caps, least, n - 1);
    }
  }

  // The unevenness of the topmost window of each size that can be feasible.
  ghost function Tops(caps: seq<int>, amount: nat): (s: seq<int>)
    requires Capacities(caps) && 0 < amount <= Sum(caps)
    ensures |s| == |caps| - LeastCount(caps, amount) + 1
  {
    var least := LeastCount(caps, amount);
    seq(|caps| - least + 1, i requires 0 <= i <= |caps| - least => Unevenness(caps, amount, 0, least + i))
  }

  lemma TopsAt(caps: seq<int>, amount: nat, i: nat)
    requires Capacities(caps) && 0 < amount <= Sum(caps) && LeastCount(caps, amount) + i <= |caps|
    ensures Tops(caps, amount)[i] == Unevenness(caps, amount, 0, LeastCount(caps, amount) + i) >= 0
  {
    hide WaterFill, Descending;
    SpreadNonNegative(SharesAt(caps, amount, 0, LeastCount(caps, amount) + i));
  }

  ghost function FirstMinimum(s: seq<int>): (k: nat)
    requires s != []
    ensures k < |s|
    ensures forall i :: 0 <= i < |s| ==> s[k] <= s[i]
    ensures forall i :: 0 <= i < k ==> s[k] < s[i]
  {
    if |s| == 1 then 0
    else
      var k := FirstMinimum(s[..|s| - 1]);
      if s[|s| - 1] < s[k] then |s| - 1 else k
  }

  // ------------------------------------------------------------ the allocation

  // The smallest of the sizes whose topmost window is divided most evenly.
  ghost function PlanSize(caps: seq<int>, amount: nat): (n: nat)
    requires Capacities(caps) && 0 < amount <= Sum(caps)
    ensures 0 < n <= |caps| && Enough(caps, amount, 0, n)
  {
    var n := LeastCount(caps, amount) + FirstMinimum(Tops(caps, amount));
    MoreHoldMore(caps, LeastCount(caps, amount), n);
    n
  }

  ghost function PlanStart(caps: seq<int>, amount: nat): (lo: nat)
    requires Capacities(caps) && 0 < amount <= Sum(caps)
    ensures Enough(caps, amount, lo, PlanSize(caps, amount))
    ensures Unevenness(caps, amount, lo, PlanSize(caps, amount)) == Unevenness(caps, amount, 0, PlanSize(caps, amount))
  {
    var n := PlanSize(caps, amount);
    var lo := LastTie(Scores(caps, amount, n));
    assert Scores(caps, amount, n)[lo] == Scores(caps, amount, n)[0];
    SpreadNonNegative(SharesAt(caps, amount, 0, n));
    lo
  }

  ghost function WindowPlan(devs: seq<Device>, amount: nat, lo: nat, n: nat): map<DeviceId, int>
    requires Pool(devs) && lo + n <= |devs|
  {
    Assign(devs[lo..lo + n], SharesAt(Frees(devs), amount, lo, n))
  }

  // What EVENLY allocates, defined by exhaustive search.
  ghost function EvenPlan(devs: seq<Device>, amount: nat): map<DeviceId, int>
    requires Pool(devs) && 0 < amount <= Sum(Frees(devs))
  {
    var caps := Frees(devs);
    WindowPlan(devs, amount, PlanStart(caps, amount), PlanSize(caps, amount))
  }

  // ------------------------------------------------------------------ optimality

  lemma PoolSlice(devs: seq<Device>, lo: nat, n: nat)
    requires Pool(devs) && lo + n <= |devs|
    ensures Pool(devs[lo..lo + n]) && Frees(devs[lo..lo + n]) == Frees(devs)[lo..lo + n]
  {
    assert Frees(devs[lo..lo + n]) == Frees(devs)[lo..lo + n];
    SliceDistinct(devs, lo, lo + n);
  }

  lemma WholePoolPlan(window: seq<Device>, amount: nat)
    requires Pool(window) && |window| > 0 && amount <= Sum(Frees(window))
    ensures IsSplit(Assign(window, WaterFill(Frees(window), amount)), window, amount)
    ensures |Assign(window, WaterFill(Frees(window), amount))| == |window|
    ensures Assign(window, WaterFill(Frees(window), amount)).Values != {}
    ensures Spread(Assign(window, WaterFill(Frees(window), amount)).Values)
      == SpreadOf(WaterFill(Frees(window), amount))
  {
    NothingIsReached(Frees(window), amount);
    var level := WaterFillLevel(Frees(window), amount, 0);
    AssignIsSplit(window, WaterFill(Frees(window), amount), amount);
  }

  lemma WindowPlanShape(devs: seq<Device>, amount: nat, lo: nat, n: nat)
    requires Pool(devs) && n > 0 && Enough(Frees(devs), amount, lo, n)
    ensures IsSplit(WindowPlan(devs, amount, lo, n), devs, amount)
    ensures |WindowPlan(devs, amount, lo, n)| == n
    ensures WindowPlan(devs, amount, lo, n).Values != {}
    ensures Spread(WindowPlan(devs, amount, lo, n).Values) == Unevenness(Frees(devs), amount, lo, n)
  {
    hide WaterFill, SpreadOf, Within;
    PoolSlice(devs, lo, n);
    WindowSumIsSum(Frees(devs), lo, n);
    WholePoolPlan(devs[lo..lo + n], amount);
    WithinSlice(WindowPlan(devs, amount, lo, n), devs, lo, lo + n);
  }

  // A split over any n devices is no more even than water-filling the n most
  // free ones, and none exists when those cannot hold the amount.
  lemma SplitIsNoMoreEven(devs: seq<Device>, amount: nat, split: map<DeviceId, int>)
    requires Pool(devs) && amount > 0 && IsSplit(split, devs, amount)
    ensures 0 < |split| && Enough(Frees(devs), amount, 0, |split|) && split.Values != {}
    ensures Unevenness(Frees(devs), amount, 0, |split|) <= Spread(split.Values)
  {
    hide WaterFill;
    assert split != map[];
    AlignCount(devs, split);
    var caps, shares := Frees(devs)[..|split|], Align(devs, split);
    AlignSum(devs, split);
    forall i | 0 <= i < |shares| ensures 0 <= shares[i] <= caps[i] && shares[i] in split.Values {
      AlignFits(devs, split, i);
      AlignValues(devs, split, i);
    }
    WaterFillMinimisesSpread(caps, amount, shares);
    WindowSumIsSum(Frees(devs), 0, |split|);
    assert Frees(devs)[0..0 + |split|] == caps;
    SpreadOfWithin(shares, Minimum(split.Values), Maximum(split.Values));
  }

  // EVENLY is globally optimal: among all ways of dividing the amount over any
  // of the devices it has the smallest spread, and then the fewest devices.
  lemma EvenPlanIsOptimal(devs: seq<Device>, amount: nat, split: map<DeviceId, int>)
    requires Pool(devs) && 0 < amount <= Sum(Frees(devs)) && IsSplit(split, devs, amount)
    ensures IsSplit(EvenPlan(devs, amount), devs, amount)
    ensures EvenPlan(devs, amount).Values != {} && split.Values != {}
    ensures
      || Spread(EvenPlan(devs, amount).Values) < Spread(split.Values)
      || (Spread(EvenPlan(devs, amount).Values) == Spread(split.Values) && |EvenPlan(devs, amount)| <= |split|)
  {
    hide WaterFill, Descending, Within, WindowPlan;
    var caps := Frees(devs);
    WindowPlanShape(devs, amount, PlanStart(caps, amount), PlanSize(caps, amount));
    SplitIsNoMoreEven(devs, amount, split);
    TopsAt(caps, amount, |split| - LeastCount(caps, amount));
    TopsAt(caps, amount, FirstMinimum(Tops(caps, amount)));
  }

  lemma WindowSplit(devs: seq<Device>, amount: nat, split: map<DeviceId, int>, lo: nat)
    requires Pool(devs) && amount > 0 && IsSplit(split, devs, amount) && lo + |split| <= |devs|
    requires split.Keys <= Ids(devs[lo..lo + |split|])
    ensures 0 < |split| && split.Values != {} && Enough(Frees(devs), amount, lo, |split|)
    ensures Unevenness(Frees(devs), amount, lo, |split|) <= Spread(split.Values)
  {
    hide WaterFill, Descending, Ids, Distinct;
    var n := |split|;
    var window := devs[lo..lo + n];
    PoolSlice(devs, lo, n);
    forall d | d in window ensures d in devs {
    }
    SplitIsNoMoreEven(window, amount, split);
    WindowSumIsSum(Frees(devs), lo, n);
    WindowSumIsSum(Frees(window), 0, n);
    assert Frees(window)[0..0 + n] == Frees(devs)[lo..lo + n];
  }

  // The devices used are neighbours in the order of what is free, and no division
  // over as many neighbours further down is as even: the least free ones are used.
  lemma EvenPlanIsLowest(devs: seq<Device>, amount: nat, split: map<DeviceId, int>, lo: nat) returns (start: nat)
    requires Pool(devs) && 0 < amount <= Sum(Frees(devs)) && IsSplit(split, devs, amount)
    requires |split| == |EvenPlan(devs, amount)| && lo + |split| <= |devs|
    requires split.Keys <= Ids(devs[lo..lo + |split|])
    ensures start + |split| <= |devs| && EvenPlan(devs, amount).Keys == Ids(devs[start..start + |split|])
    ensures EvenPlan(devs, amount).Values != {} && split.Values != {}
    ensures start < lo ==> Spread(EvenPlan(devs, amount).Values) < Spread(split.Values)
  {
    hide WaterFill, Descending, Within, Ids, Distinct, WindowSum;
    var caps := Frees(devs);
    var n := PlanSize(caps, amount);
    start := PlanStart(caps, amount);
    WindowPlanShape(devs, amount, start, n);
    AssignKeys(devs[start..start + n], SharesAt(caps, amount, start, n));
    WindowSplit(devs, amount, split, lo);
    if start < lo {
      LowerIsLessEven(caps, amount, lo);
    }
  }

  lemma LowerIsLessEven(caps: seq<int>, amount: nat, lo: nat)
    requires Capacities(caps) && 0 < amount <= Sum(caps)
    requires PlanStart(caps, amount) < lo && Enough(caps, amount, lo, PlanSize(caps, amount))
    ensures Unevenness(caps, amount, PlanStart(caps, amount), PlanSize(caps, amount))
      < Unevenness(caps, amount, lo, PlanSize(caps, amount))
  {
    hide WaterFill, Descending, Unevenness, WindowSum;
    var n := PlanSize(caps, amount);
    SlideNeverImproves(caps, amount, 0, lo, n);
    var scores := Scores(caps, amount, n);
    assert scores[lo] != scores[0];
  }

  lemma DropZeroShare(devs: seq<Device>, amount: nat, split: map<DeviceId, int>, id: DeviceId)
    requires amount > 0 && IsSplit(split, devs, amount) && id in split && split[id] == 0
    ensures IsSplit(split - {id}, devs, amount) && |split - {id}| == |split| - 1
    ensures (split - {id}).Values != {} && split.Values != {}
    ensures Spread((split - {id}).Values) <= Spread(split.Values)
  {
    var rest := split - {id};
    MapSumRemove(split, id);
    assert rest != map[];
    var other := Member(rest.Keys);
    assert rest[other] in rest.Values && split[id] in split.Values;
    forall v | v in rest.Values ensures v in split.Values {
      var k :| k in rest && rest[k] == v;
      assert split[k] == v;
    }
    SpreadWithin(rest.Values, Minimum(split.Values), Maximum(split.Values));
  }

  // Every device of the allocation gets something.
  lemma EvenPlanIsPositive(devs: seq<Device>, amount: nat, id: DeviceId)
    requires Pool(devs) && 0 < amount <= Sum(Frees(devs)) && id in EvenPlan(devs, amount)
    ensures EvenPlan(devs, amount)[id] > 0
  {
    var caps, plan := Frees(devs), EvenPlan(devs, amount);
    WindowPlanShape(devs, amount, PlanStart(caps, amount), PlanSize(caps, amount));
    IdsMeaning(devs, id);
    var d :| d in devs && d.id == id;
    if plan[id] == 0 {
      DropZeroShare(devs, amount, plan, id);
      EvenPlanIsOptimal(devs, amount, plan - {id});
    }
  }
}
