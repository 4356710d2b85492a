/** The book an allocation map keeps: how much of each device is taken, per slot. */
module Ledgers {
  import opened Devices

  datatype SlotName = SlotName(name: string)

  datatype SlotType = Count | Bytes | Unique

  // A device, the one slot it serves and its whole amount, in units of 0.01.
  datatype DeviceSlot = DeviceSlot(id: DeviceId, slot: SlotName, slotType: SlotType, amount: int)

  datatype Cell = Cell(slot: SlotName, device: DeviceId)

  type Ledger = map<Cell, int>

  // What a request was given: per slot, the share of each device.
  type Token = map<SlotName, map<DeviceId, int>>

  predicate DistinctIds(devices: seq<DeviceSlot>) {
    forall i, j :: 0 <= i < j < |devices| ==> devices[i].id != devices[j].id
  }

  function Cells(devices: seq<DeviceSlot>): set<Cell> {
    set d | d in devices :: Cell(d.slot, d.id)
  }

  function Cleared(devices: seq<DeviceSlot>): Ledger {
    map c | c in Cells(devices) :: 0
  }

  function At(token: Token, c: Cell): int {
    if c.slot in token && c.device in token[c.slot] then token[c.slot][c.device] else 0
  }

  function Add(ledger: Ledger, token: Token): (sum: Ledger)
    ensures sum.Keys == ledger.Keys
  {
    map c | c in ledger :: ledger[c] + At(token, c)
  }

  function Subtract(ledger: Ledger, token: Token): (difference: Ledger)
    ensures difference.Keys == ledger.Keys
  {
    map c | c in ledger :: ledger[c] - At(token, c)
  }

  function CellsOf(token: Token): set<Cell> {
    set s, d | s in token && d in token[s] :: Cell(s, d)
  }

  // A cell that is not in the book is opened, empty, when it is first used.
  function Opened(ledger: Ledger, token: Token): (all: Ledger)
    ensures all.Keys == ledger.Keys + CellsOf(token)
  {
    map c | c in ledger.Keys + CellsOf(token) :: if c in ledger then ledger[c] else 0
  }

  lemma KnownIsOpened(ledger: Ledger, token: Token)
    ensures Known(token, ledger.Keys) <==> CellsOf(token) <= ledger.Keys
    ensures Known(token, ledger.Keys) ==> Opened(ledger, token) == ledger
  {
    forall s, d | s in token && d in token[s] ensures Cell(s, d) in CellsOf(token) {
    }
  }

  // Every share belongs to a cell of the book.
  ghost predicate Known(token: Token, cells: set<Cell>) {
    forall s, d :: s in token && d in token[s] ==> Cell(s, d) in cells
  }

  // Entering a token and taking one out change exactly the cells the token names,
  // each by its share; a cell that is not there counts as empty.
  lemma BookingExactly(ledger: Ledger, token: Token)
    ensures var entered, freed := Add(Opened(ledger, token), token), Subtract(Opened(ledger, token), token);
      && (forall s, d :: s in token && d in token[s] ==>
          var c, share := Cell(s, d), token[s][d];
          && c in entered && entered[c] == (if c in ledger then ledger[c] else 0) + share
          && c in freed && freed[c] == (if c in ledger then ledger[c] else 0) - share)
      && (forall c :: c in ledger && !(c.slot in token && c.device in token[c.slot]) ==>
          c in entered && c in freed && entered[c] == ledger[c] == freed[c])
      && (forall c :: c in entered || c in freed ==> c in ledger || (c.slot in token && c.device in token[c.slot]))
  {
    forall s, d | s in token && d in token[s] ensures Cell(s, d) in CellsOf(token) {
    }
  }

  // The devices of a slot, in the order of the map, with what is taken of them.
  function SlotDevices(devices: seq<DeviceSlot>, ledger: Ledger, slot: SlotName): seq<Device>
    requires Cells(devices) <= ledger.Keys
  {
    if devices == [] then []
    else
      var n := |devices| - 1;
      assert Cells(devices[..n]) <= Cells(devices);
      var rest := SlotDevices(devices[..n], ledger, slot);
      var d := devices[n];
      assert Cell(d.slot, d.id) in Cells(devices);
      if d.slot == slot then rest + [Device(d.id, d.amount, ledger[Cell(slot, d.id)])] else rest
  }

  // Exactly the devices of the slot are listed, in the order of the map.
  lemma {:induction false} SlotDevicesInOrder(a: seq<DeviceSlot>, d: DeviceSlot, b: seq<DeviceSlot>, ledger: Ledger,
    slot: SlotName)
    requires Cells(a) <= ledger.Keys && Cells(b) <= ledger.Keys && Cell(d.slot, d.id) in ledger
    ensures Cells(a + [d] + b) <= ledger.Keys
    ensures SlotDevices(a + [d] + b, ledger, slot) == SlotDevices(a, ledger, slot)
      + (if d.slot == slot then [Device(d.id, d.amount, ledger[Cell(slot, d.id)])] else [])
      + SlotDevices(b, ledger, slot)
  {
    var all := a + [d] + b;
    if b == [] {
      assert all == a + [d] && all[..|a|] == a;
    } else {
      var n := |b| - 1;
      assert b == b[..n] + [b[n]];
      assert Cells(b[..n]) <= Cells(b) && Cell(b[n].slot, b[n].id) in Cells(b);
      SlotDevicesInOrder(a, d, b[..n], ledger, slot);
      assert all[..|all| - 1] == a + [d] + b[..n];
    }
  }

  lemma {:induction false} SlotDevicesMeaning(devices: seq<DeviceSlot>, ledger: Ledger, slot: SlotName, e: Device)
    requires Cells(devices) <= ledger.Keys
    ensures e in SlotDevices(devices, ledger, slot) <==>
      exists d :: d in devices && d.slot == slot && Cell(slot, d.id) in ledger
        && e == Device(d.id, d.amount, ledger[Cell(slot, d.id)])
  {
    if devices != [] {
      var n := |devices| - 1;
      assert devices == devices[..n] + [devices[n]];
      assert Cells(devices[..n]) <= Cells(devices);
      assert Cell(devices[n].slot, devices[n].id) in Cells(devices);
      SlotDevicesMeaning(devices[..n], ledger, slot, e);
    }
  }

  lemma {:induction false} SlotDevicesDistinct(devices: seq<DeviceSlot>, ledger: Ledger, slot: SlotName)
    requires Cells(devices) <= ledger.Keys && DistinctIds(devices)
    ensures Distinct(SlotDevices(devices, ledger, slot))
    ensures forall id :: id in Ids(SlotDevices(devices, ledger, slot)) ==>
      Cell(slot, id) in Cells(devices) && exists d :: d in devices && d.id == id && d.slot == slot
  {
    if devices != [] {
      var n := |devices| - 1;
      assert devices == devices[..n] + [devices[n]];
      assert Cells(devices[..n]) <= Cells(devices);
      assert Cell(devices[n].slot, devices[n].id) in Cells(devices);
      SlotDevicesDistinct(devices[..n], ledger, slot);
      var rest, all := SlotDevices(devices[..n], ledger, slot), SlotDevices(devices, ledger, slot);
      if devices[n].slot == slot {
        assert all[..|all| - 1] == rest;
        assert Ids(all) == Ids(rest) + {devices[n].id};
      }
    }
  }

  // No device is over-allocated and none has a negative amount taken.
  ghost predicate Bounded(devices: seq<DeviceSlot>, ledger: Ledger) {
    Cells(devices) <= ledger.Keys
    && forall d :: d in devices ==> Cell(d.slot, d.id) in ledger && 0 <= ledger[Cell(d.slot, d.id)] <= d.amount
  }

  lemma CommitKeepsBounds(devices: seq<DeviceSlot>, ledger: Ledger, slot: SlotName, shares: map<DeviceId, int>)
    requires Bounded(devices, ledger) && Within(shares, SlotDevices(devices, ledger, slot))
    ensures Bounded(devices, Add(ledger, map[slot := shares]))
  {
    forall d | d in devices
      ensures 0 <= ledger[Cell(d.slot, d.id)] + At(map[slot := shares], Cell(d.slot, d.id)) <= d.amount
    {
      if d.slot == slot && d.id in shares {
        var e := Device(d.id, d.amount, ledger[Cell(slot, d.id)]);
        SlotDevicesMeaning(devices, ledger, slot, e);
        assert 0 <= shares[e.id] <= e.Free();
      }
    }
  }
}
