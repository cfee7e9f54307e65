/** The tables that are handed to the Ethernet controller before deep sleep, and the passes that fill them. */
module InterfaceTables {
  import opened Sequences
  import opened Devices
  import opened BoundedTable
  import Pass = BoundedPass
  import Ipv4 = Ipv4Collection
  import Ipv6 = Ipv6Collection

  /** The contents of the tables, with stale rows, and the sizes that are published with them. */
  datatype Tables = Tables(
    arp: seq<ArpEntry>, temporary: seq<NdpEntry>, target: seq<NdpEntry>,
    arpSize: nat, temporarySize: nat, targetSize: nat, echo4Size: nat, echo6Size: nat)

  class InterfaceDb {
    const arpTable: array<ArpEntry>
    const temporaryTable: array<NdpEntry>
    const targetTable: array<NdpEntry>
    // The echo databases point at the ARP table and at the table of assigned addresses.
    const echo4Table: array<ArpEntry>
    const echo6Table: array<NdpEntry>
    var arpSize: nat
    var temporarySize: nat
    var targetSize: nat
    var echo4Size: nat
    var echo6Size: nat

    ghost predicate Valid() {
      && 1 <= arpTable.Length
      && 1 <= temporaryTable.Length == targetTable.Length
      && temporaryTable != targetTable
      && echo4Table == arpTable
      && echo6Table == targetTable
    }

    ghost function State(): Tables
      reads this, arpTable, temporaryTable, targetTable
    {
      Tables(arpTable[..], temporaryTable[..], targetTable[..],
             arpSize, temporarySize, targetSize, echo4Size, echo6Size)
    }

    constructor (arpCapacity: nat, ndpCapacity: nat)
      requires 1 <= arpCapacity && 1 <= ndpCapacity
      ensures Valid()
      ensures fresh(arpTable) && fresh(temporaryTable) && fresh(targetTable)
      ensures arpTable.Length == arpCapacity && targetTable.Length == ndpCapacity
      ensures arpSize == temporarySize == targetSize == echo4Size == echo6Size == 0
    {
      var mac: Mac := [0, 0, 0, 0, 0, 0];
      var arp := new ArpEntry[arpCapacity](_ => ArpEntry(0, mac, false, 0));
      var zero := NdpEntry(Ipv6Address(0, 0, 0, 0), mac, false, 0);
      var temporary := new NdpEntry[ndpCapacity](_ => zero);
      var target := new NdpEntry[ndpCapacity](_ => zero);
      arpTable, temporaryTable, targetTable := arp, temporary, target;
      echo4Table, echo6Table := arp, target;
      arpSize, temporarySize, targetSize, echo4Size, echo6Size := 0, 0, 0, 0, 0;
    }

    /** The ARP table and its size after `writes`, on top of what the table held before. */
    ghost predicate ArpHolds(stale: seq<ArpEntry>, writes: seq<ArpEntry>)
      reads this, arpTable
    {
      && 1 <= |stale| == arpTable.Length
      && arpSize == |writes|
      && arpTable[..] == Overlay(stale, writes)
    }

    lemma ArpHoldsNothingYet()
      requires 1 <= arpTable.Length && arpSize == 0
      ensures ArpHolds(arpTable[..], [])
    {
    }

    /** Stores one row and counts it. */
    method PutArp(index: nat, row: ArpEntry, ghost stale: seq<ArpEntry>, ghost writes: seq<ArpEntry>)
      requires ArpHolds(stale, writes) && index == NextSlot(|writes|, arpTable.Length)
      modifies this`arpSize, arpTable
      ensures ArpHolds(stale, writes + [row]) && arpSize == |writes| + 1
    {
      OverlayStep(stale, writes, row);
      arpTable[index] := row;
      arpSize := arpSize + 1;
    }

    /** The IPv4 pass. */
    method GetIpv4Info(netdev: NetDevice, devices: seq<NetDevice>)
      requires Valid() && arpSize == 0
      modifies this`arpSize, arpTable
      ensures ArpHolds(old(arpTable[..]), Ipv4.ArpWrites(netdev, devices, arpTable.Length))
    {
      hide ArpHolds, Pass.Accepted, Pass.FirstRows;
      ArpHoldsNothingYet();
      var capacity := arpTable.Length;
      ghost var stale := arpTable[..];
      ghost var physical := Source(netdev, false).ArpRows();
      var index, full := 0, false;
      while index < |netdev.ipv4|
        invariant index <= |netdev.ipv4| && index < capacity && index == |physical[..index]| && !full
        invariant ArpHolds(stale, physical[..index])
      {
        PutArp(index, Source(netdev, false).ArpRow(netdev.ipv4[index]), stale, physical[..index]);
        assert physical[..index] + [physical[index]] == physical[..index + 1];
        if arpSize >= capacity {
          full := true;
          break;
        }
        index := index + 1;
      }
      if !full {
        assert physical[..index] == physical;
        Pass.AcceptedNothingYet(physical, Ipv4.VlanRows(netdev, devices), capacity - |physical|);
        ghost var vlan := Ipv4.VlanRows(netdev, devices);
        ghost var room := capacity - |physical|;
        for d := 0 to |devices|
          invariant index == NextSlot(|physical + Pass.Accepted(vlan, d, room)|, capacity)
          invariant ArpHolds(stale, physical + Pass.Accepted(vlan, d, room))
        {
          Pass.AcceptedUnfold(physical, vlan, d, capacity);
          if IsActiveVlanOf(netdev, devices[d]) {
            index := CopyVlanAddresses(devices[d], index, stale, physical + Pass.Accepted(vlan, d, room));
          }
        }
      }
    }

    /** The inner loop of the VLAN part of the IPv4 pass: it stops as soon as the table is full. */
    method CopyVlanAddresses(dev: NetDevice, start: nat, ghost stale: seq<ArpEntry>, ghost before: seq<ArpEntry>)
      returns (index: nat)
      requires ArpHolds(stale, before) && start == NextSlot(|before|, arpTable.Length)
      modifies this`arpSize, arpTable
      ensures var writes := before + Pass.FirstRows(Source(dev, true).ArpRows(), arpTable.Length - |before|);
              ArpHolds(stale, writes) && index == NextSlot(|writes|, arpTable.Length)
    {
      hide ArpHolds;
      var capacity := arpTable.Length;
      ghost var rows := Source(dev, true).ArpRows();
      ghost var writes := before;
      index := start;
      var k := 0;
      while k < |dev.ipv4|
        invariant k <= |dev.ipv4| && (k == 0 || |writes| < capacity)
        invariant writes == before + rows[..k] && index == NextSlot(|writes|, capacity)
        invariant ArpHolds(stale, writes)
      {
        PutArp(index, Source(dev, true).ArpRow(dev.ipv4[k]), stale, writes);
        assert rows[..k] + [rows[k]] == rows[..k + 1];
        Associative(before, rows[..k], [rows[k]]);
        writes := writes + [rows[k]];
        k := k + 1;
        if arpSize >= capacity {
          break;
        }
        index := index + 1;
      }
      assert rows[..k] == Pass.FirstRows(rows, capacity - |before|);
    }

    /** Both NDP tables and their sizes after `rows`, on top of what the tables held before. */
    ghost predicate NdpHolds(stale: Ipv6.NdpRows, rows: Ipv6.NdpRows)
      reads this, temporaryTable, targetTable
    {
      && 1 <= |stale.temporary| == temporaryTable.Length
      && 1 <= |stale.target| == targetTable.Length
      && temporarySize == |rows.temporary|
      && targetSize == |rows.target|
      && temporaryTable[..] == Overlay(stale.temporary, rows.temporary)
      && targetTable[..] == Overlay(stale.target, rows.target)
    }

    lemma NdpHoldsNothingYet()
      requires Valid() && temporarySize == targetSize == 0
      ensures NdpHolds(Ipv6.NdpRows(temporaryTable[..], targetTable[..]), Ipv6.NO_ROWS)
    {
    }

    method PutTemporary(index: nat, row: NdpEntry, ghost stale: Ipv6.NdpRows, ghost rows: Ipv6.NdpRows)
      requires Valid() && NdpHolds(stale, rows)
      requires index == NextSlot(|rows.temporary|, temporaryTable.Length)
      modifies this`temporarySize, temporaryTable
      ensures NdpHolds(stale, rows.AddTemporary(row)) && temporarySize == |rows.temporary| + 1
    {
      OverlayStep(stale.temporary, rows.temporary, row);
      temporaryTable[index] := row;
      temporarySize := temporarySize + 1;
    }

    method PutTarget(index: nat, row: NdpEntry, ghost stale: Ipv6.NdpRows, ghost rows: Ipv6.NdpRows)
      requires Valid() && NdpHolds(stale, rows)
      requires index == NextSlot(|rows.target|, targetTable.Length)
      modifies this`targetSize, targetTable
      ensures NdpHolds(stale, rows.AddAssigned(row)) && targetSize == |rows.target| + 1
    {
      OverlayStep(stale.target, rows.target, row);
      targetTable[index] := row;
      targetSize := targetSize + 1;
    }

    /** The slots that the next temporary and the next assigned address go to. */
    ghost predicate AtNextSlots(rows: Ipv6.NdpRows, temporaryIndex: nat, targetIndex: nat)
      requires Valid()
    {
      && temporaryIndex == NextSlot(|rows.temporary|, temporaryTable.Length)
      && targetIndex == NextSlot(|rows.target|, targetTable.Length)
    }

    /** The IPv6 pass. */
    method GetIpv6Info(netdev: NetDevice, devices: seq<NetDevice>)
      requires Valid() && temporarySize == targetSize == 0
      modifies this`temporarySize, this`targetSize, temporaryTable, targetTable
      ensures NdpHolds(Ipv6.NdpRows(old(temporaryTable[..]), old(targetTable[..])),
                       Ipv6.NdpWrites(netdev, devices, |devices|, targetTable.Length))
    {
      hide NdpHolds, Ipv6.Scan;
      var capacity := targetTable.Length;
      ghost var stale := Ipv6.NdpRows(temporaryTable[..], targetTable[..]);
      NdpHoldsNothingYet();
      var temporaryIndex, targetIndex, shut := CopyPhysicalNdp(netdev, stale);
      for d := 0 to |devices|
        invariant AtNextSlots(Ipv6.NdpWrites(netdev, devices, d, capacity), temporaryIndex, targetIndex)
        invariant NdpHolds(stale, Ipv6.NdpWrites(netdev, devices, d, capacity))
      {
        ghost var rows := Ipv6.NdpWrites(netdev, devices, d, capacity);
        if IsActiveVlanOf(netdev, devices[d]) {
          temporaryIndex, targetIndex :=
            CopyVlanNdp(devices[d], temporaryIndex, targetIndex, shut, stale, rows);
        } else {
          Ipv6.ScanNothing(Visited(netdev, devices, d + 1), rows, shut, capacity);
        }
      }
    }

    /** The physical part of the IPv6 pass: a table that becomes full ends the loop and is shut. */
    method CopyPhysicalNdp(netdev: NetDevice, ghost stale: Ipv6.NdpRows)
      returns (temporaryIndex: nat, targetIndex: nat, shut: Ipv6.Shut)
      requires Valid() && NdpHolds(stale, Ipv6.NO_ROWS)
      modifies this`temporarySize, this`targetSize, temporaryTable, targetTable
      ensures NdpHolds(stale, Ipv6.PhysicalRows(netdev, targetTable.Length))
      ensures AtNextSlots(Ipv6.PhysicalRows(netdev, targetTable.Length), temporaryIndex, targetIndex)
      ensures shut == Ipv6.ShutByPhysical(netdev, targetTable.Length)
    {
      hide NdpHolds;
      var capacity := targetTable.Length;
      var s := Source(netdev, false);
      ghost var rows := Ipv6.NO_ROWS;
      temporaryIndex, targetIndex, shut := 0, 0, Ipv6.NONE_SHUT;
      var k := 0;
      while k < |netdev.ipv6|
        invariant k <= |netdev.ipv6| && shut == Ipv6.NONE_SHUT
        invariant |rows.temporary| < capacity && |rows.target| < capacity
        invariant NdpHolds(stale, rows) && AtNextSlots(rows, temporaryIndex, targetIndex)
        invariant Ipv6.Scan(s, k, rows, Ipv6.NONE_SHUT, capacity) == Ipv6.PhysicalRows(netdev, capacity)
      {
        var a := netdev.ipv6[k];
        if a.temporary {
          PutTemporary(temporaryIndex, s.NdpRow(a), stale, rows);
          rows := rows.AddTemporary(s.NdpRow(a));
          if temporarySize >= capacity {
            shut := shut.(temporary := true);
            break;
          }
          temporaryIndex := temporaryIndex + 1;
        } else if a.permanent {
          PutTarget(targetIndex, s.NdpRow(a), stale, rows);
          rows := rows.AddAssigned(s.NdpRow(a));
          if targetSize >= capacity {
            shut := shut.(target := true);
            break;
          }
          targetIndex := targetIndex + 1;
        }
        k := k + 1;
      }
      assert rows == Ipv6.PhysicalRows(netdev, capacity);
    }

    /** The inner loop of the VLAN part: a write that finds its table full leaves the address list. */
    method CopyVlanNdp(dev: NetDevice, temporaryStart: nat, targetStart: nat, shut: Ipv6.Shut,
                       ghost stale: Ipv6.NdpRows, ghost before: Ipv6.NdpRows)
      returns (temporaryIndex: nat, targetIndex: nat)
      requires Valid() && NdpHolds(stale, before) && AtNextSlots(before, temporaryStart, targetStart)
      modifies this`temporarySize, this`targetSize, temporaryTable, targetTable
      ensures var rows := Ipv6.Scan(Source(dev, true), 0, before, shut, targetTable.Length);
              NdpHolds(stale, rows) && AtNextSlots(rows, temporaryIndex, targetIndex)
    {
      hide NdpHolds;
      var capacity := targetTable.Length;
      var s := Source(dev, true);
      ghost var rows := before;
      temporaryIndex, targetIndex := temporaryStart, targetStart;
      var k := 0;
      while k < |dev.ipv6|
        invariant k <= |dev.ipv6|
        invariant NdpHolds(stale, rows) && AtNextSlots(rows, temporaryIndex, targetIndex)
        invariant Ipv6.Scan(s, k, rows, shut, capacity) == Ipv6.Scan(s, 0, before, shut, capacity)
      {
        var a := dev.ipv6[k];
        if a.temporary && !shut.temporary {
          PutTemporary(temporaryIndex, s.NdpRow(a), stale, rows);
          rows := rows.AddTemporary(s.NdpRow(a));
          if temporarySize >= capacity {
            break;
          }
          temporaryIndex := temporaryIndex + 1;
        } else if a.permanent && !shut.target {
          PutTarget(targetIndex, s.NdpRow(a), stale, rows);
          rows := rows.AddAssigned(s.NdpRow(a));
          if targetSize >= capacity {
            break;
          }
          targetIndex := targetIndex + 1;
        }
        k := k + 1;
      }
      assert rows == Ipv6.Scan(s, 0, before, shut, capacity);
    }
  }
}
