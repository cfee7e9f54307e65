/** The rows that the IPv4 pass writes, as a bounded pass over the physical device and the device list. */
module Ipv4Collection {
  import opened Sequences
  import opened Devices
  import opened BoundedTable
  import opened BoundedPass

  /** The rows of each entry of the device list; a skipped entry has none. */
  function VlanRows(netdev: NetDevice, devices: seq<NetDevice>): seq<seq<ArpEntry>> {
    seq(|devices|, i requires 0 <= i < |devices| => Visited(netdev, devices, i + 1).ArpRows())
  }

  /** Every row that the IPv4 pass writes, in order. */
  function ArpWrites(netdev: NetDevice, devices: seq<NetDevice>, capacity: nat): seq<ArpEntry> {
    Writes(Source(netdev, false).ArpRows(), VlanRows(netdev, devices), capacity)
  }

  /** Every row that there is to collect. */
  function AllArpRows(netdev: NetDevice, devices: seq<NetDevice>): seq<ArpEntry> {
    Source(netdev, false).ArpRows() + Flatten(VlanRows(netdev, devices), |devices|)
  }

  /** Size and every slot of the ARP table, for every topology and every capacity. */
  lemma ExactResult(netdev: NetDevice, devices: seq<NetDevice>, stale: seq<ArpEntry>)
    requires 1 <= |stale|
    ensures var writes, vlan := ArpWrites(netdev, devices, |stale|), VlanRows(netdev, devices);
            var later := Later(vlan, |devices|, |stale| - |netdev.ipv4|);
            IsExactResult(AllArpRows(netdev, devices), later, stale, |writes|, Overlay(stale, writes))
  {
    hide Accepted, Flatten, Later, IsExactResult, Overlay;
    BoundedPass.ExactResult(Source(netdev, false).ArpRows(), VlanRows(netdev, devices), stale);
  }

  /** The size counter never passes the capacity by more than the number of devices. */
  lemma SizeBound(netdev: NetDevice, devices: seq<NetDevice>, capacity: nat)
    requires 1 <= capacity
    ensures |ArpWrites(netdev, devices, capacity)| <= capacity + |devices|
  {
    WritesClosedForm(Source(netdev, false).ArpRows(), VlanRows(netdev, devices), capacity);
  }

  // Which row stands where, in terms of the devices.

  /** The number of addresses of the running VLAN devices among the first `d` entries of the device list. */
  function VlanCount(netdev: NetDevice, devices: seq<NetDevice>, d: nat): nat
    requires d <= |devices|
  {
    if d == 0 then 0
    else
      var dev := devices[d - 1];
      VlanCount(netdev, devices, d - 1) +
      if dev.isVlan && dev.realDev == netdev.ifindex && dev.isUp then |dev.ipv4| else 0
  }

  lemma {:induction false} VlanCountIsLength(netdev: NetDevice, devices: seq<NetDevice>, d: nat)
    requires d <= |devices|
    ensures |Flatten(VlanRows(netdev, devices), d)| == VlanCount(netdev, devices, d)
  {
    if d != 0 {
      VlanCountIsLength(netdev, devices, d - 1);
    }
  }

  /** The rows to collect begin with the addresses of the physical device, in the order of its list. */
  lemma PhysicalAddressAt(netdev: NetDevice, devices: seq<NetDevice>, i: nat)
    requires i < |netdev.ipv4|
    ensures i < |AllArpRows(netdev, devices)|
    ensures AllArpRows(netdev, devices)[i] == ArpEntry(netdev.ipv4[i], netdev.mac, false, 0)
  {
  }

  /** Behind them stand the addresses of the running VLAN devices, in the order of the devices and of their lists. */
  lemma VlanAddressAt(netdev: NetDevice, devices: seq<NetDevice>, d: nat, j: nat)
    requires d < |devices| && j < |devices[d].ipv4|
    requires devices[d].isVlan && devices[d].realDev == netdev.ifindex && devices[d].isUp
    ensures var at := |netdev.ipv4| + VlanCount(netdev, devices, d) + j;
            && at < |AllArpRows(netdev, devices)|
            && AllArpRows(netdev, devices)[at] ==
               ArpEntry(devices[d].ipv4[j], devices[d].mac, true, devices[d].vid)
  {
    VlanCountIsLength(netdev, devices, d);
    FlattenAt(VlanRows(netdev, devices), |devices|, d, j);
    hide Flatten;
  }

  /** There are no other rows, and the first `capacity` of them are written in this order. */
  lemma RowsAreWrittenInOrder(netdev: NetDevice, devices: seq<NetDevice>, capacity: nat)
    requires 1 <= capacity
    ensures var all, writes := AllArpRows(netdev, devices), ArpWrites(netdev, devices, capacity);
            && |all| == |netdev.ipv4| + VlanCount(netdev, devices, |devices|)
            && Take(all, capacity) <= writes
            && (|all| <= capacity ==> writes == all)
  {
    var physical, vlan := Source(netdev, false).ArpRows(), VlanRows(netdev, devices);
    VlanCountIsLength(netdev, devices, |devices|);
    WritesClosedForm(physical, vlan, capacity);
    if |AllArpRows(netdev, devices)| <= capacity {
      NothingLaterWhenAllFit(vlan, |devices|, capacity - |physical|);
    }
    hide Flatten, Later, Accepted;
  }

  /** The physical addresses that fit are the first rows of the table, whatever else there is. */
  lemma PhysicalAddressesAreWrittenFirst(netdev: NetDevice, devices: seq<NetDevice>, capacity: nat, i: nat)
    requires i < |netdev.ipv4| && i < capacity
    ensures i < |ArpWrites(netdev, devices, capacity)|
    ensures ArpWrites(netdev, devices, capacity)[i] == ArpEntry(netdev.ipv4[i], netdev.mac, false, 0)
  {
    RowsAreWrittenInOrder(netdev, devices, capacity);
    PhysicalAddressAt(netdev, devices, i);
    hide AllArpRows, ArpWrites;
    var all := AllArpRows(netdev, devices);
    TakeIsPrefix(all, capacity);
  }

  /**
    In a table that is full before, the last slot ends up with the first address of the last running VLAN
    device that has any.
   */
  lemma LastDeviceTakesLastSlot(netdev: NetDevice, devices: seq<NetDevice>, d: nat, stale: seq<ArpEntry>)
    requires d < |devices| && 1 <= |devices[d].ipv4|
    requires devices[d].isVlan && devices[d].realDev == netdev.ifindex && devices[d].isUp
    requires VlanCount(netdev, devices, d + 1) == VlanCount(netdev, devices, |devices|)
    requires |netdev.ipv4| < |stale| <= |netdev.ipv4| + VlanCount(netdev, devices, d)
    ensures Overlay(stale, ArpWrites(netdev, devices, |stale|))[|stale| - 1] ==
            ArpEntry(devices[d].ipv4[0], devices[d].mac, true, devices[d].vid)
  {
    var physical, vlan := Source(netdev, false).ArpRows(), VlanRows(netdev, devices);
    var room := |stale| - |physical|;
    hide Overlay, Accepted, Flatten, Later, VlanCount;
    VlanCountIsLength(netdev, devices, d);
    AcceptedClosedForm(vlan, d, room);
    NothingMore(netdev, devices, d + 1, |devices|, room);
    FullTableTakesFirst(vlan, d, room);
    assert vlan[d][0] == ArpEntry(devices[d].ipv4[0], devices[d].mac, true, devices[d].vid);
    Associative(physical, Accepted(vlan, d, room), [vlan[d][0]]);
    OverlayLast(stale, physical + Accepted(vlan, d, room), vlan[d][0]);
  }

  lemma FullTableTakesFirst(lists: seq<seq<ArpEntry>>, n: nat, room: nat)
    requires n < |lists| && 1 <= |lists[n]| && room <= |Accepted(lists, n, room)|
    ensures Accepted(lists, n + 1, room) == Accepted(lists, n, room) + [lists[n][0]]
  {
    assert lists[n][..1] == [lists[n][0]];
  }

  lemma {:induction false} NothingMore(netdev: NetDevice, devices: seq<NetDevice>, d: nat, n: nat, room: nat)
    requires d <= n <= |devices| && VlanCount(netdev, devices, d) == VlanCount(netdev, devices, n)
    ensures Accepted(VlanRows(netdev, devices), n, room) == Accepted(VlanRows(netdev, devices), d, room)
    decreases n
  {
    if d != n {
      VlanCountGrows(netdev, devices, d, n - 1);
      NothingMore(netdev, devices, d, n - 1, room);
      var vlan := VlanRows(netdev, devices);
      assert |vlan[n - 1]| == 0;
      EmptyListAddsNothing(vlan, n - 1, room);
      hide Accepted;
    }
  }

  lemma EmptyListAddsNothing(lists: seq<seq<ArpEntry>>, n: nat, room: nat)
    requires n < |lists| && |lists[n]| == 0
    ensures Accepted(lists, n + 1, room) == Accepted(lists, n, room)
  {
    var before := Accepted(lists, n, room);
    assert before + FirstRows(lists[n], room - |before|) == before;
  }

  lemma {:induction false} VlanCountGrows(netdev: NetDevice, devices: seq<NetDevice>, d: nat, n: nat)
    requires d <= n <= |devices|
    ensures VlanCount(netdev, devices, d) <= VlanCount(netdev, devices, n)
    decreases n
  {
    if d != n {
      VlanCountGrows(netdev, devices, d, n - 1);
    }
  }

  // Which rows there are, in terms of the devices.

  /** `d` has an address that makes `row`. */
  ghost predicate Offers(d: NetDevice, asVlan: bool, row: ArpEntry) {
    exists j | 0 <= j < |d.ipv4| :: row == ArpEntry(d.ipv4[j], d.mac, asVlan, if asVlan then d.vid else 0)
  }

  lemma RowsOfSource(s: Source, row: ArpEntry)
    ensures row in s.ArpRows() <==> Offers(s.device, s.asVlan, row)
  {
    if row in s.ArpRows() {
      var j :| 0 <= j < |s.device.ipv4| && s.ArpRows()[j] == row;
      assert row == ArpEntry(s.device.ipv4[j], s.device.mac, s.asVlan, s.Vid());
    }
    if Offers(s.device, s.asVlan, row) {
      var j :| 0 <= j < |s.device.ipv4|
        && row == ArpEntry(s.device.ipv4[j], s.device.mac, s.asVlan, if s.asVlan then s.device.vid else 0);
      assert s.ArpRows()[j] == row;
    }
  }

  /** `row` carries an address, the MAC and the VLAN data of the physical device or of an active VLAN device. */
  ghost predicate IsRowFor(netdev: NetDevice, devices: seq<NetDevice>, row: ArpEntry) {
    || Offers(netdev, false, row)
    || exists i | 0 <= i < |devices| ::
         && devices[i].isVlan && devices[i].realDev == netdev.ifindex && devices[i].isUp
         && Offers(devices[i], true, row)
  }

  lemma RowsAreFromTheirDevices(netdev: NetDevice, devices: seq<NetDevice>, row: ArpEntry)
    ensures row in AllArpRows(netdev, devices) <==> IsRowFor(netdev, devices, row)
  {
    var vlan := VlanRows(netdev, devices);
    FlattenMembers(vlan, |devices|, row);
    RowsOfSource(Source(netdev, false), row);
    forall i | 0 <= i < |devices|
      ensures row in vlan[i] <==>
              && devices[i].isVlan && devices[i].realDev == netdev.ifindex && devices[i].isUp
              && Offers(devices[i], true, row)
    {
      RowsOfSource(Visited(netdev, devices, i + 1), row);
    }
  }

  /** Every row written, also to a saturated table, belongs to a device; when all fit, every such row is written. */
  lemma WrittenRowsAreFromTheirDevices(netdev: NetDevice, devices: seq<NetDevice>, capacity: nat, row: ArpEntry)
    requires 1 <= capacity
    ensures row in ArpWrites(netdev, devices, capacity) ==> IsRowFor(netdev, devices, row)
    ensures |AllArpRows(netdev, devices)| <= capacity && IsRowFor(netdev, devices, row) ==>
              row in ArpWrites(netdev, devices, capacity)
  {
    hide IsRowFor, Accepted, Flatten;
    var physical, vlan := Source(netdev, false).ArpRows(), VlanRows(netdev, devices);
    RowsAreFromTheirDevices(netdev, devices, row);
    if row in ArpWrites(netdev, devices, capacity) {
      WrittenRowsAreMembers(physical, vlan, capacity, row);
    }
    WritesClosedForm(physical, vlan, capacity);
  }
}
