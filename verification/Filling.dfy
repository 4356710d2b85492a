/** Greedy filling, used by the discrete map and by the FILL strategy: devices
    are used up one after the other, the most free one first. */
module Filling {
  import opened Sums
  import opened WaterFilling
  import opened Devices

  function Min(a: int, b: int): int { if a < b then a else b }

  // The shares of the devices that get something: a prefix of the sorted list.
  function FillShares(caps: seq<int>, amount: nat): (shares: seq<int>)
    ensures |shares| <= |caps|
    decreases |caps|
  {
    if amount == 0 || caps == [] || caps[0] <= 0 then []
    else [Min(amount, caps[0])] + FillShares(caps[1..], amount - Min(amount, caps[0]))
  }

  function FillPlan(devs: seq<Device>, amount: nat): map<DeviceId, int> {
    var shares := FillShares(Frees(devs), amount);
    Assign(devs[..|shares|], shares)
  }

  // The same, device by device as the loop goes.
  function FillMap(devs: seq<Device>, amount: nat): map<DeviceId, int>
    decreases |devs|
  {
    if amount == 0 || devs == [] then map[]
    else if devs[0].Free() <= 0 then FillMap(devs[1..], amount)
    else
      var share := Min(amount, devs[0].Free());
      map[devs[0].id := share] + FillMap(devs[1..], amount - share)
  }

  lemma {:induction false} FillMapNone(devs: seq<Device>, amount: nat)
    requires forall i :: 0 <= i < |devs| ==> devs[i].Free() <= 0
    ensures FillMap(devs, amount) == map[]
    decreases |devs|
  {
    if devs != [] {
      FillMapNone(devs[1..], amount);
    }
  }

  lemma {:induction false} AssignFront(window: seq<Device>, shares: seq<int>)
    requires |window| == |shares| > 0
    ensures Assign(window, shares) == map[window[0].id := shares[0]] + Assign(window[1..], shares[1..])
  {
    var n := |window| - 1;
    if n > 0 {
      AssignFront(window[..n], shares[..n]);
      assert window[..n][1..] == window[1..][..n - 1] && shares[..n][1..] == shares[1..][..n - 1];
    } else {
      assert window[..0] == [] && Assign(window[..0], shares[..0]) == map[];
    }
  }

  lemma {:induction false} FillMapIsPlan(devs: seq<Device>, amount: nat)
    requires Descending(Frees(devs))
    ensures FillMap(devs, amount) == FillPlan(devs, amount)
    decreases |devs|
  {
    var caps := Frees(devs);
    if amount > 0 && devs != [] {
      assert forall i :: 0 <= i < |devs| ==> caps[i] == devs[i].Free();
      if caps[0] <= 0 {
        FillMapNone(devs, amount);
      } else {
        var share, rest := Min(amount, caps[0]), devs[1..];
        assert Frees(rest) == caps[1..];
        FillMapIsPlan(rest, amount - share);
        var tail := FillShares(caps[1..], amount - share);
        var window, shares := devs[..|tail| + 1], [share] + tail;
        assert window[1..] == rest[..|tail|] && shares[1..] == tail;
        AssignFront(window, shares);
      }
    }
  }

  function Positive(v: int): int { if v > 0 then v else 0 }

  function PositiveSum(caps: seq<int>): int {
    if caps == [] then 0 else Positive(caps[0]) + PositiveSum(caps[1..])
  }

  // Every device but the last is used up, and the last gets something.
  lemma {:induction false} FillUsesUp(caps: seq<int>, amount: nat, i: nat)
    requires i < |FillShares(caps, amount)|
    ensures 0 < FillShares(caps, amount)[i] <= caps[i]
    ensures i < |FillShares(caps, amount)| - 1 ==> FillShares(caps, amount)[i] == caps[i]
  {
    if i > 0 {
      FillUsesUp(caps[1..], amount - Min(amount, caps[0]), i - 1);
    }
  }

  // Filling hands out the amount, or everything there is if that is less.
  lemma {:induction false} FillTotal(caps: seq<int>, amount: nat)
    requires Descending(caps)
    ensures Sum(FillShares(caps, amount)) == Min(amount, PositiveSum(caps))
    ensures PositiveSum(caps) >= 0 && PositiveSum(caps) >= Sum(caps)
  {
    if caps != [] {
      var s, rest := Min(amount, caps[0]), caps[1..];
      assert caps == [caps[0]] + rest;
      SumAppend([caps[0]], rest);
      assert Sum([caps[0]]) == caps[0];
      if caps[0] <= 0 {
        FillTotal(rest, 0);
        NothingPositive(caps);
      } else if amount == 0 {
        FillTotal(rest, 0);
      } else {
        FillTotal(rest, amount - s);
        SumAppend([s], FillShares(rest, amount - s));
        assert Sum([s]) == s;
      }
    }
  }

  lemma {:induction false} NothingPositive(caps: seq<int>)
    requires forall i :: 0 <= i < |caps| ==> caps[i] <= 0
    ensures PositiveSum(caps) == 0
  {
    if caps != [] {
      NothingPositive(caps[1..]);
    }
  }

  lemma {:induction false} NothingNegative(caps: seq<int>)
    requires forall i :: 0 <= i < |caps| ==> caps[i] >= 0
    ensures PositiveSum(caps) == Sum(caps)
  {
    if caps != [] {
      NothingNegative(caps[1..]);
      assert caps == [caps[0]] + caps[1..];
      SumAppend([caps[0]], caps[1..]);
      assert Sum([caps[0]]) == caps[0];
    }
  }

  // Which devices are followed by another one in the allocation: those that
  // have something free and do not suffice together with the ones before them.
  lemma {:induction false} FillGoesOn(caps: seq<int>, amount: nat, i: nat)
    requires Descending(caps) && amount <= PositiveSum(caps)
    ensures i + 1 < |FillShares(caps, amount)| <==> i < |caps| && caps[i] > 0 && Sum(caps[..i + 1]) < amount
  {
    if caps == [] || amount == 0 || caps[0] <= 0 {
      NothingGoesOn(caps, amount, i);
    } else {
      hide Sum, PositiveSum;
      var share, rest := Min(amount, caps[0]), caps[1..];
      var left := amount - share;
      FirstTaken(caps, amount);
      if i == 0 {
        FillStarts(rest, left);
        if |caps| > 0 {
          PrefixSumFront(caps, 0);
          NoSum();
        }
      } else {
        FillGoesOn(rest, left, i - 1);
        if i < |caps| {
          PrefixSumFront(caps, i);
          if caps[i] > 0 {
            SumNonNegative(rest[..i]);
          }
        }
      }
    }
  }

  lemma NoSum()
    ensures Sum([]) == 0
  {}

  lemma PrefixSumFront(caps: seq<int>, i: nat)
    requires i < |caps|
    ensures Sum(caps[..i + 1]) == caps[0] + Sum(caps[1..][..i]) && (i == 0 ==> caps[1..][..i] == [])
  {
    assert caps[..i + 1] == [caps[0]] + caps[1..][..i];
    SumAppend([caps[0]], caps[1..][..i]);
    assert [caps[0]][..0] == [];
  }

  lemma FirstTaken(caps: seq<int>, amount: nat)
    requires Descending(caps) && amount <= PositiveSum(caps) && caps != [] && caps[0] > 0
    ensures Descending(caps[1..]) && amount - Min(amount, caps[0]) <= PositiveSum(caps[1..])
  {
    FillTotal(caps[1..], 0);
  }

  lemma NothingGoesOn(caps: seq<int>, amount: nat, i: nat)
    requires Descending(caps) && amount <= PositiveSum(caps) && (caps == [] || amount == 0 || caps[0] <= 0)
    ensures FillShares(caps, amount) == [] && !(i < |caps| && caps[i] > 0 && Sum(caps[..i + 1]) < amount)
  {
    if i < |caps| && caps[i] > 0 {
      SumNonNegative(caps[..i + 1]);
    }
  }

  lemma FillStarts(caps: seq<int>, amount: nat)
    requires Descending(caps) && amount <= PositiveSum(caps)
    ensures FillShares(caps, amount) != [] <==> amount > 0
  {
    if caps != [] && caps[0] <= 0 {
      NothingPositive(caps);
    }
  }

  // The allocation is a split of the amount into positive shares, all of them
  // whole free capacities but one.
  lemma FillPlanShape(devs: seq<Device>, amount: nat)
    requires Distinct(devs) && Descending(Frees(devs))
    ensures Within(FillPlan(devs, amount), devs)
    ensures MapSum(FillPlan(devs, amount)) == Min(amount, PositiveSum(Frees(devs)))
    ensures |FillPlan(devs, amount)| == |FillShares(Frees(devs), amount)|
    ensures forall v :: v in FillPlan(devs, amount).Values ==> v > 0
  {
    hide FillShares, PositiveSum;
    var caps := Frees(devs);
    var shares := FillShares(caps, amount);
    var k := |shares|;
    forall i | 0 <= i < k ensures 0 < shares[i] <= devs[i].Free() {
      FillUsesUp(caps, amount, i);
    }
    SliceDistinct(devs, 0, k);
    assert devs[0..k] == devs[..k];
    AssignWithin(devs[..k], shares);
    WithinSlice(FillPlan(devs, amount), devs, 0, k);
    AssignTotals(devs[..k], shares);
    AssignValues(devs[..k], shares);
    FillTotal(caps, amount);
  }

  // At most one device of the allocation keeps something free.
  lemma FillLeavesOnePartial(devs: seq<Device>, amount: nat, i: nat, j: nat)
    requires Distinct(devs) && i < j < |devs|
    requires devs[i].id in FillPlan(devs, amount) && devs[j].id in FillPlan(devs, amount)
    ensures FillPlan(devs, amount)[devs[i].id] == devs[i].Free()
  {
    hide FillShares;
    var shares := FillShares(Frees(devs), amount);
    var k := |shares|;
    var window := devs[..k];
    SliceDistinct(devs, 0, k);
    assert devs[0..k] == window;
    AssignKeys(window, shares);
    DistinctMeaning(devs);
    IdsMeaning(window, devs[j].id);
    AssignAt(window, shares, i);
    FillUsesUp(Frees(devs), amount, i);
  }

  // No allocation of the amount gets by with fewer devices, because no k
  // devices hold more than the k most free ones.
  lemma FillUsesFewest(devs: seq<Device>, amount: nat, split: map<DeviceId, int>)
    requires Distinct(devs) && Descending(Frees(devs)) && IsSplit(split, devs, amount)
    ensures MapSum(FillPlan(devs, amount)) == amount
    ensures |FillPlan(devs, amount)| <= |split|
  {
    hide FillShares, PositiveSum;
    var caps, aligned := Frees(devs), Align(devs, split);
    var shares := FillShares(caps, amount);
    FillPlanShape(devs, amount);
    AlignCount(devs, split);
    AlignSum(devs, split);
    forall i | 0 <= i < |split| ensures 0 <= aligned[i] <= caps[i] {
      AlignFits(devs, split, i);
    }
    forall i | 0 <= i < |shares| ensures shares[i] > 0 && (i < |shares| - 1 ==> shares[i] == caps[i]) {
      FillUsesUp(caps, amount, i);
    }
    FillTotal(caps, amount);
    AtMostPositiveSum(aligned, caps);
    if |split| < |shares| {
      FewerHoldLess(aligned, shares);
    }
  }

  lemma {:induction false} AtMostPositiveSum(part: seq<int>, caps: seq<int>)
    requires |part| <= |caps| && forall i :: 0 <= i < |part| ==> part[i] <= caps[i]
    ensures Sum(part) <= PositiveSum(caps)
  {
    if caps != [] {
      var rest := if part == [] then [] else part[1..];
      AtMostPositiveSum(rest, caps[1..]);
      if part != [] {
        assert part == [part[0]] + rest;
        SumAppend([part[0]], rest);
        assert Sum([part[0]]) == part[0];
      }
    }
  }

  lemma FewerHoldLess(few: seq<int>, many: seq<int>)
    requires |few| < |many| && forall i :: 0 <= i < |many| ==> many[i] > 0
    requires forall i :: 0 <= i < |few| ==> few[i] <= many[i]
    ensures Sum(few) < Sum(many)
  {
    var k := |few|;
    assert many == many[..k] + many[k..];
    SumAppend(many[..k], many[k..]);
    SumLe(few, many[..k]);
    SumNonNegative(many[k..][..|many| - k - 1]);
  }
}
