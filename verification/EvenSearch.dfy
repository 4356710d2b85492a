/** The search EVENLY runs: windows of each size are slid down the sorted
    devices until one is infeasible or less even.  It finds what the exhaustive
    search of EvenSplit defines. */
module EvenSearch {
  import opened Sums
  import opened Sorting
  import opened WaterFilling
  import opened Devices
  import opened EvenSplit

  // Devices lo, lo + 1, ... with their shares, and the scores it is judged by.
  datatype Candidate = Candidate(lo: nat, shares: seq<int>, evenness: int, fragmentation: int)

  function Negate(v: int): int { -v }

  // SortBy puts large keys first: by size is ascending by minus the size.
  function SizeOf(c: Candidate): int { |c.shares| }

  // Higher means more even, with 0 the highest: minus the sum of the gaps
  // between neighbouring shares in ascending order.
  method MeasureEvenness(shares: seq<int>) returns (evenness: int)
    ensures shares == [] ==> evenness == 0
    ensures shares != [] ==> evenness == -SpreadOf(shares)
  {
    var ascending := SortBy(shares, Negate);
    SortBySorts(shares, Negate);
    var score, i := 0, 0;
    while i < |ascending| - 1
      invariant ascending == [] ==> score == 0
      invariant ascending != [] ==> 0 <= i < |ascending| && score == ascending[i] - ascending[0]
    {
      assert Negate(ascending[i]) >= Negate(ascending[i + 1]);
      var gap := ascending[i + 1] - ascending[i];
      score := score + if gap < 0 then -gap else gap;
      i := i + 1;
    }
    if shares != [] {
      AscendingSpread(shares, ascending);
    }
    return -score;
  }

  lemma AscendingSpread(shares: seq<int>, ascending: seq<int>)
    requires |shares| == |ascending| > 0 && multiset(shares) == multiset(ascending)
    requires Ordered(ascending, Negate)
    ensures SpreadOf(shares) == ascending[|ascending| - 1] - ascending[0]
  {
    var low, high := ascending[0], ascending[|ascending| - 1];
    forall i | 0 <= i < |ascending| ensures low <= ascending[i] <= high {
      assert i > 0 ==> Negate(ascending[0]) >= Negate(ascending[i]);
      assert i < |ascending| - 1 ==> Negate(ascending[i]) >= Negate(high);
    }
    assert low in multiset(shares) && high in multiset(shares);
    forall v | v in shares ensures low <= v <= high {
      assert v in multiset(ascending);
    }
    assert low in Elems(shares) && high in Elems(shares);
  }

  // The number of devices left with an unusably small remainder.
  function Fragmentation(window: seq<Device>, shares: seq<int>, minMemory: int): nat
    requires |window| == |shares|
  {
    if window == [] then 0
    else
      var n := |window| - 1;
      Fragmentation(window[..n], shares[..n], minMemory)
      + if 1 < window[n].amount - shares[n] < minMemory then 1 else 0
  }

  method TryWindow(devs: seq<Device>, caps: seq<int>, amount: nat, lo: nat, n: nat, minMemory: int)
    returns (c: Candidate)
    requires Capacities(caps) && caps == Frees(devs) && 0 < n && lo + n <= |caps|
    ensures c.lo == lo && c.shares == SharesAt(caps, amount, lo, n)
    ensures c.evenness == -Unevenness(caps, amount, lo, n)
  {
    var shares := AllocateAcrossDevices(caps[lo..lo + n], amount);
    var evenness := MeasureEvenness(shares);
    c := Candidate(lo, shares, evenness, Fragmentation(devs[lo..lo + n], shares, minMemory));
  }

  // The candidate kept for one window size.
  ghost predicate KeptFor(c: Candidate, caps: seq<int>, amount: nat, n: nat)
    requires Capacities(caps) && 0 < n <= |caps|
  {
    && c.lo == LastTie(Scores(caps, amount, n))
    && c.shares == SharesAt(caps, amount, c.lo, n)
    && c.evenness == -Unevenness(caps, amount, 0, n)
  }

  method ScanWindows(devs: seq<Device>, caps: seq<int>, amount: nat, n: nat, minMemory: int) returns (kept: Candidate)
    requires Capacities(caps) && caps == Frees(devs) && 0 < n && Enough(caps, amount, 0, n)
    ensures KeptFor(kept, caps, amount, n)
  {
    hide WaterFill, Descending, SpreadOf, Worsening, LastTie, WindowSum;
    ghost var scores := Scores(caps, amount, n);
    var allocatable := WindowSum(caps, 0, n);
    var first := TryWindow(devs, caps, amount, 0, n, minMemory);
    var candidates := [first];
    var idx := 1;
    while idx < |caps| - n + 1
      invariant 1 <= idx <= |caps| - n + 1 && |candidates| == idx
      invariant allocatable == WindowSum(caps, idx - 1, n)
      invariant scores[idx - 1] == scores[0] == -first.evenness
      invariant forall c :: c in candidates ==> c.evenness == first.evenness && SizeOf(c) == n
      invariant candidates[idx - 1].lo == idx - 1 && candidates[idx - 1].shares == SharesAt(caps, amount, idx - 1, n)
    {
      SlideSum(caps, idx - 1, n);
      allocatable := allocatable - caps[idx - 1];
      allocatable := allocatable + caps[idx + n - 1];
      if allocatable < amount {
        break;
      }
      var candidate := TryWindow(devs, caps, amount, idx, n, minMemory);
      if candidate.evenness < first.evenness {
        break;
      }
      SlideNeverImproves(caps, amount, 0, idx, n);
      candidates := candidates + [candidate];
      idx := idx + 1;
    }
    ScoresWorsen(caps, amount, n);
    SpreadNonNegative(SharesAt(caps, amount, 0, n));
    NothingBelowTies(scores, idx);
    // The sort is by the number of devices, which is n for all of them.
    ConstantSort(candidates, SizeOf, n);
    kept := SortBy(candidates, SizeOf)[|candidates| - 1];
  }

  // Lexicographic order on (evenness, -number of devices, -fragmentation).
  predicate NoBetter(a: Candidate, b: Candidate) {
    || a.evenness < b.evenness
    || (a.evenness == b.evenness && |a.shares| > |b.shares|)
    || (a.evenness == b.evenness && |a.shares| == |b.shares| && a.fragmentation >= b.fragmentation)
  }

  // The last element of a stable sort in that order.
  method SelectBest(candidates: seq<Candidate>) returns (k: nat)
    requires candidates != []
    ensures k < |candidates|
    ensures forall i :: 0 <= i < |candidates| ==> NoBetter(candidates[i], candidates[k])
    ensures forall i :: k < i < |candidates| ==> !NoBetter(candidates[k], candidates[i])
  {
    k := 0;
    for i := 1 to |candidates|
      invariant k < i
      invariant forall j :: 0 <= j < i ==> NoBetter(candidates[j], candidates[k])
      invariant forall j :: k < j < i ==> !NoBetter(candidates[k], candidates[j])
    {
      if NoBetter(candidates[k], candidates[i]) {
        k := i;
      }
    }
  }

  lemma OneDeviceIsEven(caps: seq<int>, amount: nat, i: nat)
    requires Capacities(caps) && i < |caps|
    ensures Enough(caps, amount, i, 1) <==> amount <= caps[i]
    ensures amount <= caps[i] ==> Unevenness(caps, amount, i, 1) == 0 && SharesAt(caps, amount, i, 1) == [amount]
  {
    assert caps[i..i + 1] == [caps[i]];
    assert WindowSum(caps, i, 1) == WindowSum(caps, i, 0) + caps[i];
    assert amount / 1 == amount && amount % 1 == 0;
    SpreadOfWithin([amount], amount, amount);
  }

  lemma OneDeviceSize(caps: seq<int>, amount: nat)
    requires Capacities(caps) && caps != [] && 0 < amount <= Sum(caps) && amount <= caps[0]
    ensures PlanSize(caps, amount) == 1
  {
    hide WaterFill;
    OneDeviceIsEven(caps, amount, 0);
    LeastCountIs(caps, amount, 1);
    TopsAt(caps, amount, 0);
    TopsAt(caps, amount, FirstMinimum(Tops(caps, amount)));
  }

  lemma OneDeviceStart(caps: seq<int>, amount: nat, i: nat)
    requires Capacities(caps) && i < |caps| && 0 < amount <= caps[i] && amount <= caps[0] && amount <= Sum(caps)
    requires i + 1 < |caps| ==> caps[i + 1] < amount
    ensures PlanSize(caps, amount) == 1 && PlanStart(caps, amount) == i
  {
    hide WaterFill, Descending, Unevenness, WindowSum;
    OneDeviceSize(caps, amount);
    var scores := Scores(caps, amount, 1);
    OneDeviceIsEven(caps, amount, 0);
    OneDeviceIsEven(caps, amount, i);
    if i + 1 < |caps| {
      OneDeviceIsEven(caps, amount, i + 1);
    }
    ScoresWorsen(caps, amount, 1);
    NothingBelowTies(scores, i + 1);
  }

  // A request that fits one device goes to the least free device it fits, the
  // last of them if there are several.
  lemma OneDevicePlan(devs: seq<Device>, amount: nat, i: nat)
    requires Pool(devs) && i < |devs| && 0 < amount <= devs[i].Free() && amount <= Sum(Frees(devs))
    requires i + 1 < |devs| ==> devs[i + 1].Free() < amount
    ensures EvenPlan(devs, amount) == map[devs[i].id := amount]
  {
    assert i > 0 ==> Frees(devs)[0] >= Frees(devs)[i];
    OneDeviceStart(Frees(devs), amount, i);
    OneDeviceIsEven(Frees(devs), amount, i);
    var window, shares := [devs[i]], [amount];
    assert devs[i..i + 1] == window;
    assert window[..0] == [] && shares[..0] == [];
    assert Assign(window[..0], shares[..0]) == map[];
    assert Assign(window, shares) == map[devs[i].id := amount];
  }

  // The best of the candidates kept for sizes least, least + 1, ... is that of
  // the first most even size; fragmentation never decides.
  lemma BestIsFirstMinimum(candidates: seq<Candidate>, least: nat, tops: seq<int>, k: nat)
    requires |candidates| == |tops| && k < |tops|
    requires forall i :: 0 <= i < |tops| ==> candidates[i].evenness == -tops[i] && |candidates[i].shares| == least + i
    requires forall i :: 0 <= i < |tops| ==> NoBetter(candidates[i], candidates[k])
    ensures k == FirstMinimum(tops)
  {
    assert NoBetter(candidates[FirstMinimum(tops)], candidates[k]);
  }

  method MinimumDevices(caps: seq<int>, amount: nat) returns (n: nat)
    requires Capacities(caps) && 0 < amount <= Sum(caps)
    ensures n == LeastCount(caps, amount)
  {
    WindowSumIsSum(caps, 0, |caps|);
    assert caps[0..0 + |caps|] == caps;
    n := 0;
    var covered := 0;
    while covered < amount
      invariant 0 <= n <= |caps| && covered == WindowSum(caps, 0, n)
      invariant n > 0 ==> WindowSum(caps, 0, n - 1) < amount
      decreases |caps| - n
    {
      covered := covered + caps[n];
      n := n + 1;
    }
    LeastCountIs(caps, amount, n);
  }

  // From the fewest devices that can hold the amount up to all of them.
  method SearchSizes(devs: seq<Device>, caps: seq<int>, amount: nat, minMemory: int) returns (chosen: Candidate)
    requires Capacities(caps) && caps == Frees(devs) && 0 < amount <= Sum(caps)
    ensures |chosen.shares| == PlanSize(caps, amount) && chosen.lo == PlanStart(caps, amount)
    ensures chosen.shares == SharesAt(caps, amount, chosen.lo, |chosen.shares|)
  {
    hide WaterFill, Descending, SpreadOf, LastTie, WindowSum, Sum, Unevenness, SharesAt, Scores, Tops, NoBetter;
    var n := MinimumDevices(caps, amount);
    ghost var tops := Tops(caps, amount);
    var candidates := [];
    for size := n to |caps| + 1
      invariant |candidates| == size - n
      invariant forall i :: 0 <= i < |candidates| ==> KeptFor(candidates[i], caps, amount, n + i)
      invariant forall i :: 0 <= i < |candidates| ==> candidates[i].evenness == -tops[i]
    {
      MoreHoldMore(caps, n, size);
      TopsAt(caps, amount, size - n);
      var kept := ScanWindows(devs, caps, amount, size, minMemory);
      candidates := candidates + [kept];
      // The source would stop here once the evenness is +0.01.  It never is,
      // because evenness is never positive.
      if kept.evenness == 1 {
        assert false;
      }
    }
    var k := SelectBest(candidates);
    BestIsFirstMinimum(candidates, n, tops, k);
    assert KeptFor(candidates[k], caps, amount, n + k);
    chosen := candidates[k];
  }

  // The slot allocation EVENLY makes once the devices are sorted and filtered
  // and there is known to be enough.
  method AllocateEvenly(devs: seq<Device>, amount: nat, minMemory: int) returns (allocation: map<DeviceId, int>)
    requires Pool(devs) && 0 < amount <= Sum(Frees(devs))
    ensures allocation == EvenPlan(devs, amount)
  {
    hide WaterFill, Descending, PlanSize, PlanStart, SharesAt;
    var caps := Frees(devs);
    if amount <= caps[0] {
      var i := |devs| - 1;
      while caps[i] < amount
        invariant 0 <= i < |devs|
        invariant i + 1 < |devs| ==> caps[i + 1] < amount
        decreases i
      {
        i := i - 1;
      }
      allocation := map[devs[i].id := amount];
      OneDevicePlan(devs, amount, i);
    } else {
      var chosen := SearchSizes(devs, caps, amount, minMemory);
      allocation := Assign(devs[chosen.lo..chosen.lo + |chosen.shares|], chosen.shares);
    }
  }
}
