/** Which row stands where among the addresses to collect, in terms of the devices and their flags. */
module Ipv6Order {
  import opened Sequences
  import opened Devices
  import opened BoundedPass
  import opened Ipv6Collection
  import opened Ipv6Saturation

  predicate IsOf(a: Ipv6Assignment, kind: Kind) {
    if kind.Temporary? then a.temporary else a.permanent && !a.temporary
  }

  /** The number of addresses of one kind among the first `n` of a list. */
  function Count(addresses: seq<Ipv6Assignment>, n: nat, kind: Kind): nat
    requires n <= |addresses|
  {
    if n == 0 then 0 else Count(addresses, n - 1, kind) + if IsOf(addresses[n - 1], kind) then 1 else 0
  }

  /** The number of addresses of one kind of the running VLAN devices among the first `d` entries of the list. */
  function VlanCount(netdev: NetDevice, devices: seq<NetDevice>, d: nat, kind: Kind): nat
    requires d <= |devices|
  {
    if d == 0 then 0
    else
      var dev := devices[d - 1];
      VlanCount(netdev, devices, d - 1, kind) +
      if dev.isVlan && dev.realDev == netdev.ifindex && dev.isUp then Count(dev.ipv6, |dev.ipv6|, kind) else 0
  }

  lemma {:induction false} CountGrows(addresses: seq<Ipv6Assignment>, m: nat, n: nat, kind: Kind)
    requires m <= n <= |addresses|
    ensures Count(addresses, m, kind) <= Count(addresses, n, kind)
    decreases n
  {
    if m != n {
      CountGrows(addresses, m, n - 1, kind);
    }
  }

  lemma {:induction false} CountIsLength(s: Source, k: nat, kind: Kind)
    requires k <= |s.device.ipv6|
    ensures |From(s, k, kind)| == Count(s.device.ipv6, |s.device.ipv6|, kind) - Count(s.device.ipv6, k, kind)
    decreases |s.device.ipv6| - k
  {
    if k != |s.device.ipv6| {
      CountIsLength(s, k + 1, kind);
      FromLater(s, k, kind);
      hide From;
    }
  }

  predicate StandsAt(rows: seq<NdpEntry>, at: int, row: NdpEntry) {
    0 <= at < |rows| && rows[at] == row
  }

  /** How the rows from index `k` on start, and where the rows from the next index on stand among them. */
  lemma StandsAtLater(s: Source, k: nat, kind: Kind, at: int, row: NdpEntry)
    requires k < |s.device.ipv6|
    ensures var here := IsOf(s.device.ipv6[k], kind);
            && (here ==> StandsAt(From(s, k, kind), 0, s.NdpRow(s.device.ipv6[k])))
            && (StandsAt(From(s, k + 1, kind), at, row) ==>
                  StandsAt(From(s, k, kind), at + if here then 1 else 0, row))
  {
    FromLater(s, k, kind);
    hide From;
  }

  lemma CountLater(addresses: seq<Ipv6Assignment>, k: nat, kind: Kind)
    requires k < |addresses|
    ensures Count(addresses, k + 1, kind) == Count(addresses, k, kind) + if IsOf(addresses[k], kind) then 1 else 0
  {
  }

  /** The addresses of one kind keep their order. */
  lemma {:induction false} FromAt(s: Source, k: nat, j: nat, kind: Kind)
    requires k <= j < |s.device.ipv6| && IsOf(s.device.ipv6[j], kind)
    ensures StandsAt(From(s, k, kind), Count(s.device.ipv6, j, kind) - Count(s.device.ipv6, k, kind),
                     s.NdpRow(s.device.ipv6[j]))
    decreases j - k
  {
    hide StandsAt, From, Count, IsOf;
    var addresses, m := s.device.ipv6, k + 1;
    CountLater(addresses, k, kind);
    StandsAtLater(s, k, kind, Count(addresses, j, kind) - Count(addresses, m, kind), s.NdpRow(addresses[j]));
    if k != j {
      FromAt(s, m, j, kind);
    }
  }

  lemma {:induction false} VlanCountIsLength(netdev: NetDevice, devices: seq<NetDevice>, d: nat, kind: Kind)
    requires d <= |devices|
    ensures |Flatten(VlanRows(netdev, devices, kind), d)| == VlanCount(netdev, devices, d, kind)
  {
    if d != 0 {
      VlanCountIsLength(netdev, devices, d - 1, kind);
      CountIsLength(Visited(netdev, devices, d), 0, kind);
      hide From;
    }
  }

  /** There are as many rows of a kind as addresses. */
  lemma RowsAreCounted(netdev: NetDevice, devices: seq<NetDevice>, kind: Kind)
    ensures |AllRows(netdev, devices, |devices| + 1).Of(kind)| ==
            Count(netdev.ipv6, |netdev.ipv6|, kind) + VlanCount(netdev, devices, |devices|, kind)
  {
    hide AllRows, From, Flatten;
    AllRowsAreListed(netdev, devices, |devices|, kind);
    CountIsLength(Source(netdev, false), 0, kind);
    VlanCountIsLength(netdev, devices, |devices|, kind);
  }

  /** A temporary address of the physical device stands behind the temporary ones before it, an assigned one likewise. */
  lemma PhysicalAddressAt(netdev: NetDevice, devices: seq<NetDevice>, j: nat)
    requires j < |netdev.ipv6|
    ensures var all, a := AllRows(netdev, devices, |devices| + 1), netdev.ipv6[j];
            var row := NdpEntry(a.address, netdev.mac, false, 0);
            var t, p := Count(netdev.ipv6, j, Temporary), Count(netdev.ipv6, j, Assigned);
            && (a.temporary ==> t < |all.temporary| && all.temporary[t] == row)
            && (a.permanent && !a.temporary ==> p < |all.target| && all.target[p] == row)
  {
    hide AllRows, From, Flatten;
    forall kind | IsOf(netdev.ipv6[j], kind)
      ensures var at := Count(netdev.ipv6, j, kind);
              var rows := AllRows(netdev, devices, |devices| + 1).Of(kind);
              at < |rows| && rows[at] == NdpEntry(netdev.ipv6[j].address, netdev.mac, false, 0)
    {
      AllRowsAreListed(netdev, devices, |devices|, kind);
      FromAt(Source(netdev, false), 0, j, kind);
    }
    assert IsOf(netdev.ipv6[j], Temporary) <==> netdev.ipv6[j].temporary;
    assert IsOf(netdev.ipv6[j], Assigned) <==> netdev.ipv6[j].permanent && !netdev.ipv6[j].temporary;
  }

  /** An address of a running VLAN device stands behind those of the physical device and of earlier VLAN devices. */
  lemma VlanAddressAt(netdev: NetDevice, devices: seq<NetDevice>, d: nat, j: nat)
    requires d < |devices| && j < |devices[d].ipv6|
    requires devices[d].isVlan && devices[d].realDev == netdev.ifindex && devices[d].isUp
    ensures var all, a := AllRows(netdev, devices, |devices| + 1), devices[d].ipv6[j];
            var row := NdpEntry(a.address, devices[d].mac, true, devices[d].vid);
            var t := VlanPosition(netdev, devices, d, j, Temporary);
            var p := VlanPosition(netdev, devices, d, j, Assigned);
            && (a.temporary ==> t < |all.temporary| && all.temporary[t] == row)
            && (a.permanent && !a.temporary ==> p < |all.target| && all.target[p] == row)
  {
    hide AllRows;
    forall kind | IsOf(devices[d].ipv6[j], kind)
      ensures var at := VlanPosition(netdev, devices, d, j, kind);
              var rows := AllRows(netdev, devices, |devices| + 1).Of(kind);
              at < |rows| && rows[at] == NdpEntry(devices[d].ipv6[j].address, devices[d].mac, true, devices[d].vid)
    {
      VlanAddressOfKindAt(netdev, devices, d, j, kind);
    }
    hide VlanPosition;
    assert IsOf(devices[d].ipv6[j], Temporary) <==> devices[d].ipv6[j].temporary;
    assert IsOf(devices[d].ipv6[j], Assigned) <==> devices[d].ipv6[j].permanent && !devices[d].ipv6[j].temporary;
  }

  function VlanPosition(netdev: NetDevice, devices: seq<NetDevice>, d: nat, j: nat, kind: Kind): nat
    requires d < |devices| && j <= |devices[d].ipv6|
  {
    Count(netdev.ipv6, |netdev.ipv6|, kind) + VlanCount(netdev, devices, d, kind) + Count(devices[d].ipv6, j, kind)
  }

  lemma VlanAddressOfKindAt(netdev: NetDevice, devices: seq<NetDevice>, d: nat, j: nat, kind: Kind)
    requires d < |devices| && j < |devices[d].ipv6| && IsActiveVlanOf(netdev, devices[d])
    requires IsOf(devices[d].ipv6[j], kind)
    ensures var at := VlanPosition(netdev, devices, d, j, kind);
            var rows := AllRows(netdev, devices, |devices| + 1).Of(kind);
            at < |rows| && rows[at] == Source(devices[d], true).NdpRow(devices[d].ipv6[j])
  {
    hide AllRows, From, Flatten;
    var physical, vlan := From(Source(netdev, false), 0, kind), VlanRows(netdev, devices, kind);
    AllRowsAreListed(netdev, devices, |devices|, kind);
    CountIsLength(Source(netdev, false), 0, kind);
    VlanCountIsLength(netdev, devices, d, kind);
    FromAt(Visited(netdev, devices, d + 1), 0, j, kind);
    FlattenAt(vlan, |devices|, d, Count(devices[d].ipv6, j, kind));
  }

  /** While the other table has room, the first `capacity` rows of a kind are written in this order. */
  lemma RowsAreWrittenInOrder(netdev: NetDevice, devices: seq<NetDevice>, kind: Kind, capacity: nat)
    requires 1 <= capacity && OtherHasRoom(netdev, devices, |devices|, kind, capacity)
    ensures Take(AllRows(netdev, devices, |devices| + 1).Of(kind), capacity) <=
            NdpWrites(netdev, devices, |devices|, capacity).Of(kind)
  {
    hide AllRows, From, Flatten, NdpWrites, Accepted, Later;
    TableIsBoundedPass(netdev, devices, |devices|, kind, capacity);
    AllRowsAreListed(netdev, devices, |devices|, kind);
    WritesClosedForm(From(Source(netdev, false), 0, kind), VlanRows(netdev, devices, kind), capacity);
  }
}
