/** Dividing an amount over a window of devices as evenly as their free
    capacities allow.  Amounts are integers in units of 0.01; a window is the
    sequence of its devices' free capacities, largest first. */
module WaterFilling {
  import opened Sums

  predicate Descending(caps: seq<int>) {
    forall i, j :: 0 <= i < j < |caps| ==> caps[i] >= caps[j]
  }

  predicate Capacities(caps: seq<int>) {
    Descending(caps) && forall i :: 0 <= i < |caps| ==> caps[i] >= 0
  }

  // shares divides amount over the window without exceeding a capacity.
  predicate Fits(shares: seq<int>, caps: seq<int>, amount: int) {
    && |shares| == |caps|
    && Sum(shares) == amount
    && forall i :: 0 <= i < |caps| ==> 0 <= shares[i] <= caps[i]
  }

  // The first amount % n of n devices get one unit more than the others.
  function EvenShares(n: nat, amount: nat): (shares: seq<int>)
    requires n > 0
    ensures |shares| == n
  {
    seq(n, i => amount / n + if i < amount % n then 1 else 0)
  }

  // The source's allocatable >= remaining / n, without the division.
  predicate Suffices(cap: int, n: nat, amount: int) { cap * n >= amount }

  // Devices too small for an even share of what is left are used up,
  // smallest first; the others share the rest evenly.
  function WaterFill(caps: seq<int>, amount: nat): (shares: seq<int>)
    requires Capacities(caps)
    ensures |shares| == |caps|
  {
    var n := |caps|;
    if n == 0 then []
    else if Suffices(caps[n - 1], n, amount) then EvenShares(n, amount)
    else
      TooSmall(caps[n - 1], n, amount);
      WaterFill(caps[..n - 1], amount - caps[n - 1]) + [caps[n - 1]]
  }

  lemma TooSmall(cap: nat, n: nat, amount: nat)
    requires n > 0 && !Suffices(cap, n, amount)
    ensures amount >= cap && amount - cap >= cap * (n - 1)
  {
    assert cap * n == cap * (n - 1) + cap;
  }

  // One round of the loop that uses up the smallest device.
  lemma WaterFillStep(caps: seq<int>, n: nat, amount: nat)
    requires Capacities(caps) && 0 < n <= |caps| && !Suffices(caps[n - 1], n, amount)
    ensures amount >= caps[n - 1]
    ensures WaterFill(caps[..n], amount) == WaterFill(caps[..n - 1], amount - caps[n - 1]) + [caps[n - 1]]
  {
    hide Suffices;
    assert caps[..n][..n - 1] == caps[..n - 1];
    TooSmall(caps[n - 1], n, amount);
  }

  method DistributeEvenly(n: nat, amount: nat) returns (shares: seq<int>)
    requires n > 0
    ensures shares == EvenShares(n, amount)
  {
    shares := [];
    var each := 0;
    for i := 0 to n
      invariant |shares| == i && forall j :: 0 <= j < i ==> shares[j] == amount / n
      invariant i > 0 ==> each == amount / n
    {
      each := amount / n;
      shares := shares + [each];
    }
    var remainder := amount - each * n;
    for i := 0 to remainder
      invariant |shares| == n
      invariant forall j :: 0 <= j < n ==> shares[j] == amount / n + if j < i then 1 else 0
    {
      shares := shares[i := shares[i] + 1];
    }
  }

  method AllocateAcrossDevices(caps: seq<int>, amount: nat) returns (shares: seq<int>)
    requires Capacities(caps)
    ensures shares == WaterFill(caps, amount)
  {
    var n, remaining, usedUp := |caps|, amount, [];
    assert caps[..n] == caps;
    while n > 0
      invariant 0 <= n <= |caps| && remaining >= 0
      invariant WaterFill(caps, amount) == WaterFill(caps[..n], remaining) + usedUp
    {
      hide WaterFill, Suffices;
      var allocatable := caps[n - 1];
      if Suffices(allocatable, n, remaining) {
        break;
      }
      WaterFillStep(caps, n, remaining);
      usedUp := [allocatable] + usedUp;
      remaining := remaining - allocatable;
      n := n - 1;
    }
    if n > 0 {
      var even := DistributeEvenly(n, remaining);
      shares := even + usedUp;
    } else {
      shares := usedUp;
    }
  }

  // ------------------------------------------------------------- fairness

  // shares is flat at the given level: a device gets its whole capacity if
  // that is below the level, and otherwise level or level + 1.
  ghost predicate Level(shares: seq<int>, caps: seq<int>, level: int)
    requires |shares| == |caps|
  {
    forall i :: 0 <= i < |caps| ==>
      (shares[i] == caps[i] || shares[i] >= level) && shares[i] <= level + 1
  }

  lemma CancelFactor(a: int, b: int, n: nat)
    requires a * n < b * n
    ensures a < b
  {
    assert (b - a) * n > 0;
  }

  lemma QuotientBounds(n: nat, amount: nat, cap: nat, floor: nat)
    requires n > 0 && floor * n <= amount <= cap * n
    ensures floor <= amount / n <= cap
    ensures amount % n > 0 ==> amount / n < cap
  {
    var q, r := amount / n, amount % n;
    assert amount == q * n + r;
    assert (q + 1) * n == q * n + n && (cap + 1) * n == cap * n + n;
    CancelFactor(floor, q + 1, n);
    CancelFactor(q, cap + 1, n);
    if r > 0 {
      CancelFactor(q, cap, n);
    }
  }

  lemma EvenSharesLevel(caps: seq<int>, amount: nat)
    requires Capacities(caps) && |caps| > 0 && Suffices(caps[|caps| - 1], |caps|, amount)
    ensures Fits(EvenShares(|caps|, amount), caps, amount)
    ensures Level(EvenShares(|caps|, amount), caps, amount / |caps|)
  {
    var n := |caps|;
    EvenSharesSum(n, amount, n);
    var s := EvenShares(n, amount);
    assert s[..n] == s;
    QuotientBounds(n, amount, caps[n - 1], 0);
  }

  lemma {:induction false} EvenSharesSum(n: nat, amount: nat, k: nat)
    requires 0 < n && k <= n
    ensures Sum(EvenShares(n, amount)[..k]) == k * (amount / n) + if k < amount % n then k else amount % n
  {
    var s := EvenShares(n, amount);
    if k > 0 {
      EvenSharesSum(n, amount, k - 1);
      assert s[..k][..k - 1] == s[..k - 1];
    }
  }

  // All devices of the window can give floor, and that much is asked for.
  ghost predicate Reaches(caps: seq<int>, amount: nat, floor: int) {
    |caps| > 0 && caps[|caps| - 1] >= floor && amount >= floor * |caps|
  }

  lemma NothingIsReached(caps: seq<int>, amount: nat)
    requires Capacities(caps) && |caps| > 0
    ensures Reaches(caps, amount, 0)
  {}

  // What using up the smallest device leaves.
  lemma SmallestUsedUp(caps: seq<int>, amount: nat)
    requires Capacities(caps) && |caps| > 0 && amount <= Sum(caps) && !Suffices(caps[|caps| - 1], |caps|, amount)
    ensures var n := |caps|; var last, rest := caps[n - 1], caps[..n - 1];
      && n > 1 && Capacities(rest) && Sum(caps) == Sum(rest) + last && amount >= last
      && Reaches(rest, amount - last, last)
      && WaterFill(caps, amount) == WaterFill(rest, amount - last) + [last]
  {
    var n, last := |caps|, caps[|caps| - 1];
    assert caps[..n] == caps;
    WaterFillStep(caps, n, amount);
    TooSmall(last, n, amount);
  }

  lemma EvenBase(caps: seq<int>, amount: nat, floor: nat)
    requires Capacities(caps) && Reaches(caps, amount, floor) && Suffices(caps[|caps| - 1], |caps|, amount)
    ensures Fits(WaterFill(caps, amount), caps, amount)
    ensures Level(WaterFill(caps, amount), caps, amount / |caps|) && amount / |caps| >= floor
    ensures WaterFill(caps, amount) == EvenShares(|caps|, amount)
  {
    EvenSharesLevel(caps, amount);
    QuotientBounds(|caps|, amount, caps[|caps| - 1], floor);
  }

  // Water-filling never exceeds a capacity, hands out exactly the amount, and
  // is flat; the level is at least any floor that all devices can reach.
  lemma {:induction false} WaterFillLevel(caps: seq<int>, amount: nat, floor: nat) returns (level: int)
    requires Capacities(caps) && amount <= Sum(caps) && Reaches(caps, amount, floor)
    ensures Fits(WaterFill(caps, amount), caps, amount)
    ensures Level(WaterFill(caps, amount), caps, level) && level >= floor
  {
    var n := |caps|;
    assert n > 0 && caps[n - 1] >= floor;
    hide WaterFill, Suffices, Reaches;
    var last := caps[n - 1];
    if Suffices(last, n, amount) {
      EvenBase(caps, amount, floor);
      level := amount / n;
    } else {
      SmallestUsedUp(caps, amount);
      level := WaterFillLevel(caps[..n - 1], amount - last, last);
      var shares := WaterFill(caps[..n - 1], amount - last);
      assert (shares + [last])[..n - 1] == shares;
    }
  }

  // Anything flat gives its best-served device no more, and its worst-served
  // device no less, than any other division that fits the same window.
  lemma FlatIsExtremal(flat: seq<int>, other: seq<int>, caps: seq<int>, amount: int, level: int, low: int, high: int)
    requires |caps| > 0 && Fits(flat, caps, amount) && Fits(other, caps, amount)
    requires Level(flat, caps, level)
    requires forall i :: 0 <= i < |other| ==> low <= other[i] <= high
    ensures forall i :: 0 <= i < |flat| ==> low <= flat[i] <= high
  {
    forall k | 0 <= k < |flat| ensures low <= flat[k] <= high {
      if flat[k] > high {
        SumLt(other, flat, k);
      }
      if flat[k] < low {
        SumLt(flat, other, k);
      }
    }
  }

  // The division made by water-filling has the smallest spread of all
  // divisions of the amount over the window.
  lemma WaterFillMinimisesSpread(caps: seq<int>, amount: nat, other: seq<int>)
    requires Capacities(caps) && |caps| > 0 && Fits(other, caps, amount)
    ensures amount <= Sum(caps)
    ensures Fits(WaterFill(caps, amount), caps, amount)
    ensures SpreadOf(WaterFill(caps, amount)) <= SpreadOf(other)
  {
    SumLe(other, caps);
    var shares := WaterFill(caps, amount);
    NothingIsReached(caps, amount);
    var level := WaterFillLevel(caps, amount, 0);
    var low, high := Extremes(other);
    FlatIsExtremal(shares, other, caps, amount, level, low, high);
    SpreadOfWithin(shares, low, high);
  }

  // No unit can be moved to a device with room from one that has at least two
  // units more: the integer form of max-min fairness.
  lemma WaterFillIsFair(caps: seq<int>, amount: nat, i: nat, j: nat)
    requires Capacities(caps) && amount <= Sum(caps) && i < |caps| && j < |caps|
    requires WaterFill(caps, amount)[j] < caps[j]
    ensures Fits(WaterFill(caps, amount), caps, amount)
    ensures WaterFill(caps, amount)[i] <= WaterFill(caps, amount)[j] + 1
    ensures WaterFill(caps, amount)[i] < caps[i] ==>
      WaterFill(caps, amount)[j] <= WaterFill(caps, amount)[i] + 1
  {
    NothingIsReached(caps, amount);
    var level := WaterFillLevel(caps, amount, 0);
  }

  // The devices that share evenly once the small ones are used up, and what
  // they share.
  function EvenCount(caps: seq<int>, amount: nat): (k: nat)
    requires Capacities(caps)
    ensures k <= |caps|
  {
    var n := |caps|;
    if n == 0 || Suffices(caps[n - 1], n, amount) then n
    else
      TooSmall(caps[n - 1], n, amount);
      EvenCount(caps[..n - 1], amount - caps[n - 1])
  }

  function EvenAmount(caps: seq<int>, amount: nat): nat
    requires Capacities(caps)
  {
    var n := |caps|;
    if n == 0 || Suffices(caps[n - 1], n, amount) then amount
    else
      TooSmall(caps[n - 1], n, amount);
      EvenAmount(caps[..n - 1], amount - caps[n - 1])
  }

  // If the devices from j on are used up, the others can share the rest evenly.
  predicate EvenFrom(caps: seq<int>, amount: int, j: nat)
    requires 0 < j <= |caps|
  {
    Suffices(caps[j - 1], j, amount - Sum(caps[j..]))
  }

  lemma {:induction false} EvenAmountIs(caps: seq<int>, amount: nat)
    requires Capacities(caps)
    ensures EvenAmount(caps, amount) == amount - Sum(caps[EvenCount(caps, amount)..])
  {
    var n := |caps|;
    assert caps[n..] == [] && Sum(caps[n..]) == 0;
    if n > 0 && !Suffices(caps[n - 1], n, amount) {
      hide Suffices, Sum;
      TooSmall(caps[n - 1], n, amount);
      EvenAmountIs(caps[..n - 1], amount - caps[n - 1]);
      LastOfTail(caps, EvenCount(caps, amount));
    }
  }

  // The cut is the largest one for which this is so.
  lemma {:induction false} EvenCutIsLargest(caps: seq<int>, amount: nat, j: nat)
    requires Capacities(caps) && EvenCount(caps, amount) <= j <= |caps| && 0 < j
    ensures EvenFrom(caps, amount, j) <==> j == EvenCount(caps, amount)
  {
    var n := |caps|;
    if j == n {
      assert caps[n..] == [] && Sum(caps[n..]) == 0;
    } else {
      hide Suffices, Sum;
      var last, rest := caps[n - 1], caps[..n - 1];
      TooSmall(last, n, amount);
      EvenCutIsLargest(rest, amount - last, j);
      LastOfTail(caps, j);
    }
  }

  lemma LastOfTail(caps: seq<int>, j: nat)
    requires j < |caps|
    ensures Sum(caps[j..]) == Sum(caps[..|caps| - 1][j..]) + caps[|caps| - 1]
  {
    var n := |caps| - 1;
    assert caps[j..][..n - j] == caps[..n][j..];
  }

  ghost predicate EvenThenUsedUp(shares: seq<int>, caps: seq<int>, k: nat, r: nat) {
    && 0 < k <= |caps| && Suffices(caps[k - 1], k, r)
    && shares == EvenShares(k, r) + caps[k..]
    && forall i :: k <= i < |caps| ==> caps[i] <= r / k
  }

  lemma {:induction false} WaterFillShape(caps: seq<int>, amount: nat, floor: nat)
    requires Capacities(caps) && amount <= Sum(caps) && Reaches(caps, amount, floor)
    ensures var k, r := EvenCount(caps, amount), EvenAmount(caps, amount);
      EvenThenUsedUp(WaterFill(caps, amount), caps, k, r) && floor <= r / k
  {
    var n := |caps|;
    assert n > 0 && caps[n - 1] >= floor;
    hide WaterFill, Suffices, Reaches, EvenShares;
    var last := caps[n - 1];
    if Suffices(last, n, amount) {
      EvenBase(caps, amount, floor);
      assert caps[n..] == [];
    } else {
      SmallestUsedUp(caps, amount);
      WaterFillShape(caps[..n - 1], amount - last, last);
      var k, r := EvenCount(caps, amount), EvenAmount(caps, amount);
      MoreUsedUp(WaterFill(caps[..n - 1], amount - last), caps, k, r);
    }
  }

  lemma MoreUsedUp(shares: seq<int>, caps: seq<int>, k: nat, r: nat)
    requires |caps| > 0 && EvenThenUsedUp(shares, caps[..|caps| - 1], k, r) && caps[|caps| - 1] <= r / k
    ensures EvenThenUsedUp(shares + [caps[|caps| - 1]], caps, k, r)
  {
    hide EvenShares;
    assert caps[..|caps| - 1][k..] + [caps[|caps| - 1]] == caps[k..];
  }

  // No device that gives all it has is ahead of one with room left.
  predicate StrictlyFair(shares: seq<int>, caps: seq<int>)
    requires |shares| == |caps|
  {
    forall i, j :: 0 <= i < |caps| && 0 <= j < |caps| && shares[i] == caps[i] && shares[j] < caps[j] ==>
      shares[i] <= shares[j]
  }

  // This holds exactly unless there is a remainder to hand out unit by unit and
  // the last device to get a unit is used up by it.
  lemma StrictlyFairExactly(caps: seq<int>, amount: nat)
    requires Capacities(caps) && |caps| > 0 && amount <= Sum(caps)
    ensures var k, r := EvenCount(caps, amount), EvenAmount(caps, amount);
      && 0 < k
      && (StrictlyFair(WaterFill(caps, amount), caps) <==> r % k == 0 || caps[r % k - 1] != r / k + 1)
  {
    var k, r := EvenCount(caps, amount), EvenAmount(caps, amount);
    NothingIsReached(caps, amount);
    WaterFillShape(caps, amount, 0);
    EvenRemainder(caps, k, r, WaterFill(caps, amount));
  }

  lemma EvenRemainder(caps: seq<int>, k: nat, r: nat, shares: seq<int>)
    requires Capacities(caps) && EvenThenUsedUp(shares, caps, k, r)
    ensures StrictlyFair(shares, caps) <==> r % k == 0 || caps[r % k - 1] != r / k + 1
  {
    var level, extra := r / k, r % k;
    QuotientBounds(k, r, caps[k - 1], 0);
    hide EvenShares;
    EvenSharesAt(k, r);
    assert forall i :: 0 <= i < k ==> caps[i] >= caps[k - 1] && shares[i] == level + if i < extra then 1 else 0;
    assert forall i :: k <= i < |caps| ==> shares[i] == caps[i];
    if extra > 0 {
      assert shares[k - 1] == level < caps[k - 1];
      if caps[extra - 1] == level + 1 {
        assert shares[extra - 1] == caps[extra - 1];
      } else {
        assert forall i :: 0 <= i < extra ==> caps[i] >= caps[extra - 1];
      }
    }
  }

  lemma EvenSharesAt(n: nat, amount: nat)
    requires n > 0
    ensures forall i :: 0 <= i < n ==> EvenShares(n, amount)[i] == amount / n + if i < amount % n then 1 else 0
  {}

  // It does happen.
  lemma FairnessIsTight()
    ensures WaterFill([2, 2], 3) == [2, 1] && !StrictlyFair([2, 1], [2, 2])
  {
    assert EvenShares(2, 3) == [2, 1];
    assert [2, 1][0] == [2, 2][0] && [2, 1][1] < [2, 2][1];
  }
}
