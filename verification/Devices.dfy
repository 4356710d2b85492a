/** The devices of one slot as the allocator sees them: sorted by free
    capacity, filtered, and paired with shares to form a slot's allocation. */
module Devices {
  import opened Sums
  import opened Sorting
  import opened WaterFilling

  datatype DeviceId = DeviceId(name: string)

  datatype Device = Device(id: DeviceId, amount: int, used: int) {
    function Free(): int { amount - used }
  }

  function Frees(devs: seq<Device>): (frees: seq<int>)
    ensures |frees| == |devs|
  {
    seq(|devs|, i requires 0 <= i < |devs| => devs[i].Free())
  }

  ghost function Ids(devs: seq<Device>): set<DeviceId> {
    if devs == [] then {} else Ids(devs[..|devs| - 1]) + {devs[|devs| - 1].id}
  }

  ghost predicate Distinct(devs: seq<Device>) {
    devs == [] || (Distinct(devs[..|devs| - 1]) && devs[|devs| - 1].id !in Ids(devs[..|devs| - 1]))
  }

  lemma {:induction false} IdsMeaning(devs: seq<Device>, id: DeviceId)
    ensures id in Ids(devs) <==> exists i :: 0 <= i < |devs| && devs[i].id == id
  {
    if devs != [] {
      var n := |devs| - 1;
      IdsMeaning(devs[..n], id);
      if i :| 0 <= i < n && devs[i].id == id {
        assert devs[..n][i].id == id;
      }
    }
  }

  lemma {:induction false} DistinctMeaning(devs: seq<Device>)
    ensures Distinct(devs) <==> forall i, j :: 0 <= i < j < |devs| ==> devs[i].id != devs[j].id
  {
    if devs != [] {
      var n := |devs| - 1;
      DistinctMeaning(devs[..n]);
      IdsMeaning(devs[..n], devs[n].id);
      assert forall i :: 0 <= i < n ==> devs[..n][i] == devs[i];
    }
  }

  lemma SliceDistinct(devs: seq<Device>, lo: nat, hi: nat)
    requires Distinct(devs) && lo <= hi <= |devs|
    ensures Distinct(devs[lo..hi])
  {
    DistinctMeaning(devs);
    DistinctMeaning(devs[lo..hi]);
  }

  // --------------------------------------------------- most free device first

  function FreeOf(d: Device): int { d.Free() }

  function SortByFree(devs: seq<Device>): seq<Device> { SortBy(devs, FreeOf) }

  lemma SumFreesAppend(a: seq<Device>, b: seq<Device>)
    ensures Sum(Frees(a + b)) == Sum(Frees(a)) + Sum(Frees(b))
  {
    assert Frees(a + b) == Frees(a) + Frees(b);
    SumAppend(Frees(a), Frees(b));
  }

  lemma InsertDistinct(d: Device, devs: seq<Device>)
    requires Distinct([d] + devs)
    ensures Distinct(Insert(d, devs, FreeOf))
  {
    var k := InsertShape(d, devs, FreeOf);
    var all, flat := Insert(d, devs, FreeOf), [d] + devs;
    DistinctMeaning(flat);
    forall i, j | 0 <= i < j < |all| ensures all[i].id != all[j].id {
      var i' := if i < k then i + 1 else if i == k then 0 else i;
      var j' := if j < k then j + 1 else if j == k then 0 else j;
      assert all[i] == flat[i'] && all[j] == flat[j'] && i' != j';
    }
    DistinctMeaning(all);
  }

  lemma InsertSum(d: Device, devs: seq<Device>)
    ensures Sum(Frees(Insert(d, devs, FreeOf))) == d.Free() + Sum(Frees(devs))
  {
    var k := InsertShape(d, devs, FreeOf);
    SumFreesAppend(devs[..k] + [d], devs[k..]);
    SumFreesAppend(devs[..k], [d]);
    SumFreesAppend(devs[..k], devs[k..]);
    assert devs == devs[..k] + devs[k..];
  }

  lemma {:induction false} SortByFreeSum(devs: seq<Device>)
    ensures Sum(Frees(SortByFree(devs))) == Sum(Frees(devs))
  {
    hide Frees, Sum, Insert;
    if devs != [] {
      var d, rest := devs[0], devs[1..];
      SortByFreeSum(rest);
      assert devs == [d] + rest;
      SumFreesAppend([d], rest);
      SumOfOne(d);
      InsertSum(d, SortByFree(rest));
    }
  }

  lemma SumOfOne(d: Device)
    ensures Sum(Frees([d])) == d.Free()
  {
    assert Frees([d]) == [d.Free()] && [d.Free()][..0] == [];
  }

  // Sorting loses no device and no capacity ...
  lemma SortByFreeKeeps(devs: seq<Device>)
    ensures multiset(SortByFree(devs)) == multiset(devs)
    ensures Descending(Frees(SortByFree(devs)))
    ensures Sum(Frees(SortByFree(devs))) == Sum(Frees(devs))
  {
    SortBySorts(devs, FreeOf);
    SortByFreeSum(devs);
  }

  // ... and keeps the IDs distinct.
  lemma {:induction false} SortByFreeDistinct(devs: seq<Device>)
    requires Distinct(devs)
    ensures Distinct(SortByFree(devs))
  {
    if devs != [] {
      var d, rest := devs[0], devs[1..];
      var sorted := SortByFree(rest);
      SliceDistinct(devs, 1, |devs|);
      assert devs[1..|devs|] == rest;
      SortByFreeDistinct(rest);
      DistinctMeaning(devs);
      DistinctMeaning(sorted);
      SortBySorts(rest, FreeOf);
      forall k | 0 <= k < |sorted| ensures sorted[k].id != d.id {
        assert sorted[k] in multiset(rest);
        var i :| 0 <= i < |rest| && rest[i] == sorted[k];
        assert devs[i + 1] == sorted[k];
      }
      DistinctMeaning([d] + sorted);
      InsertDistinct(d, sorted);
    }
  }

  // The devices with at least the given amount free: of a sorted list, a prefix.
  function AtLeast(devs: seq<Device>, free: int): seq<Device> {
    if devs == [] then []
    else AtLeast(devs[..|devs| - 1], free) + if devs[|devs| - 1].Free() >= free then [devs[|devs| - 1]] else []
  }

  lemma {:induction false} AtLeastIsPrefix(devs: seq<Device>, free: int) returns (k: nat)
    requires Descending(Frees(devs))
    ensures k <= |devs| && AtLeast(devs, free) == devs[..k]
    ensures forall i :: 0 <= i < |devs| ==> (i < k <==> devs[i].Free() >= free)
  {
    if devs == [] {
      k := 0;
    } else {
      var n := |devs| - 1;
      assert Frees(devs[..n]) == Frees(devs)[..n];
      var j := AtLeastIsPrefix(devs[..n], free);
      if devs[n].Free() >= free {
        assert Frees(devs)[j] >= Frees(devs)[n];
        assert j == n;
        k := n + 1;
      } else {
        k := j;
      }
    }
  }

  // ------------------------------------------------------- a slot's allocation

  // Device i of the window gets share i.
  function Assign(window: seq<Device>, shares: seq<int>): map<DeviceId, int>
    requires |window| == |shares|
  {
    if window == [] then map[]
    else
      var n := |window| - 1;
      Assign(window[..n], shares[..n])[window[n].id := shares[n]]
  }

  lemma {:induction false} AssignKeys(window: seq<Device>, shares: seq<int>)
    requires |window| == |shares|
    ensures Assign(window, shares).Keys == Ids(window)
  {
    if window != [] {
      AssignKeys(window[..|window| - 1], shares[..|window| - 1]);
    }
  }

  lemma {:induction false} AssignAt(window: seq<Device>, shares: seq<int>, i: nat)
    requires |window| == |shares| && Distinct(window) && i < |window|
    ensures window[i].id in Assign(window, shares) && Assign(window, shares)[window[i].id] == shares[i]
  {
    var n := |window| - 1;
    if i < n {
      AssignAt(window[..n], shares[..n], i);
      assert window[..n][i] == window[i];
      AssignKeys(window[..n], shares[..n]);
    }
  }

  lemma {:induction false} AssignTotals(window: seq<Device>, shares: seq<int>)
    requires |window| == |shares| && Distinct(window)
    ensures |Assign(window, shares)| == |window|
    ensures MapSum(Assign(window, shares)) == Sum(shares)
  {
    if window != [] {
      var n := |window| - 1;
      var init, all := Assign(window[..n], shares[..n]), Assign(window, shares);
      AssignTotals(window[..n], shares[..n]);
      AssignKeys(window[..n], shares[..n]);
      assert window[n].id !in init;
      assert all - {window[n].id} == init;
      MapSumRemove(all, window[n].id);
    }
  }

  // ------------------------------------------------- all conceivable allocations

  // Non-negative shares of some of the devices, none beyond what is free.
  ghost predicate Within(split: map<DeviceId, int>, devs: seq<Device>) {
    && split.Keys <= Ids(devs)
    && forall d :: d in devs && d.id in split ==> 0 <= split[d.id] <= d.Free()
  }

  // Any way at all of dividing the amount over some of the devices.
  ghost predicate IsSplit(split: map<DeviceId, int>, devs: seq<Device>, amount: int) {
    Within(split, devs) && MapSum(split) == amount
  }

  lemma {:induction false} AssignWithin(window: seq<Device>, shares: seq<int>)
    requires Distinct(window) && |window| == |shares|
    requires forall i :: 0 <= i < |window| ==> 0 <= shares[i] <= window[i].Free()
    ensures Within(Assign(window, shares), window)
  {
    AssignKeys(window, shares);
    if window != [] {
      var n := |window| - 1;
      AssignWithin(window[..n], shares[..n]);
      forall d | d in window && d.id != window[n].id ensures d in window[..n] {
        var i :| 0 <= i < |window| && window[i] == d;
        assert window[..n][i] == d;
      }
      forall d | d in window && d.id == window[n].id ensures d == window[n] {
        DistinctMeaning(window);
      }
    }
  }

  lemma WithinSlice(split: map<DeviceId, int>, devs: seq<Device>, lo: nat, hi: nat)
    requires lo <= hi <= |devs| && Distinct(devs) && Within(split, devs[lo..hi])
    ensures Within(split, devs)
  {
    hide Distinct, Ids;
    var window := devs[lo..hi];
    forall id | id in split
      ensures id in Ids(devs) && forall d :: d in devs && d.id == id ==> d in window
    {
      IdsMeaning(window, id);
      var i :| 0 <= i < |window| && window[i].id == id;
      assert devs[lo + i] == window[i];
      IdsMeaning(devs, id);
      DistinctMeaning(devs);
    }
  }

  lemma {:induction false} AssignValues(window: seq<Device>, shares: seq<int>)
    requires |window| == |shares| && Distinct(window)
    ensures Assign(window, shares).Values == Elems(shares)
  {
    var token := Assign(window, shares);
    AssignKeys(window, shares);
    forall i | 0 <= i < |shares| ensures shares[i] in token.Values {
      AssignAt(window, shares, i);
    }
    forall id | id in token ensures token[id] in shares {
      IdsMeaning(window, id);
      var i :| 0 <= i < |window| && window[i].id == id;
      AssignAt(window, shares, i);
    }
  }

  lemma AssignIsSplit(window: seq<Device>, shares: seq<int>, amount: int)
    requires Distinct(window) && |window| > 0 && Fits(shares, Frees(window), amount)
    ensures IsSplit(Assign(window, shares), window, amount)
    ensures |Assign(window, shares)| == |window|
    ensures Assign(window, shares).Values != {}
    ensures Spread(Assign(window, shares).Values) == SpreadOf(shares)
  {
    assert forall i :: 0 <= i < |window| ==> Frees(window)[i] == window[i].Free();
    AssignWithin(window, shares);
    AssignTotals(window, shares);
    AssignValues(window, shares);
    assert shares[0] in Elems(shares);
  }

  // The shares of a split, most free device first.
  function Align(devs: seq<Device>, split: map<DeviceId, int>): seq<int> {
    if devs == [] then []
    else
      var n := |devs| - 1;
      if devs[n].id in split then Align(devs[..n], split - {devs[n].id}) + [split[devs[n].id]]
      else Align(devs[..n], split)
  }

  lemma {:induction false} AlignCount(devs: seq<Device>, split: map<DeviceId, int>)
    requires Distinct(devs) && split.Keys <= Ids(devs)
    ensures |Align(devs, split)| == |split| <= |devs|
  {
    if devs == [] {
      assert split == map[];
    } else {
      var n := |devs| - 1;
      var rest := split - {devs[n].id};
      MapRemove(split, devs[n].id);
      AlignCount(devs[..n], rest);
    }
  }

  lemma {:induction false} AlignSum(devs: seq<Device>, split: map<DeviceId, int>)
    requires Distinct(devs) && split.Keys <= Ids(devs)
    ensures Sum(Align(devs, split)) == MapSum(split)
  {
    if devs == [] {
      assert split == map[];
    } else {
      var n := |devs| - 1;
      var id := devs[n].id;
      var init := Align(devs[..n], split - {id});
      AlignSum(devs[..n], split - {id});
      if id in split {
        MapSumRemove(split, id);
        assert (init + [split[id]])[..|init|] == init;
      } else {
        assert split - {id} == split;
      }
    }
  }

  lemma {:induction false} AlignValues(devs: seq<Device>, split: map<DeviceId, int>, i: nat)
    requires i < |Align(devs, split)|
    ensures Align(devs, split)[i] in split.Values
  {
    var n := |devs| - 1;
    var id := devs[n].id;
    if id !in split {
      AlignValues(devs[..n], split, i);
    } else if i < |Align(devs, split)| - 1 {
      AlignValues(devs[..n], split - {id}, i);
    }
  }

  // Lined up like that, a split over any k devices fits the k most free ones.
  lemma {:induction false} AlignFits(devs: seq<Device>, split: map<DeviceId, int>, i: nat)
    requires Descending(Frees(devs)) && Distinct(devs) && Within(split, devs)
    requires i < |Align(devs, split)|
    ensures |Align(devs, split)| <= |devs| && 0 <= Align(devs, split)[i] <= devs[i].Free()
  {
    AlignCount(devs, split);
    var n := |devs| - 1;
    var id := devs[n].id;
    assert devs == devs[..n] + [devs[n]];
    assert Frees(devs[..n]) == Frees(devs)[..n];
    if id in split && i == |split| - 1 {
      assert Frees(devs)[i] >= Frees(devs)[n];
    } else if id in split {
      AlignFits(devs[..n], split - {id}, i);
    } else {
      AlignFits(devs[..n], split, i);
    }
  }
}
