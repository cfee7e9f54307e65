/** The suspend handler: collect the interface configuration, then publish it. */
module DeepSleep {
  import opened Sequences
  import opened Wrappers
  import opened Devices
  import opened BoundedTable
  import opened InterfaceTables
  import Ipv4 = Ipv4Collection
  import Ipv6 = Ipv6Collection
  import Saturation = Ipv6Saturation
  import Order = Ipv6Order
  import Pass = BoundedPass

  const AR_SUCCESS := 0
  const AR_GET_INFO_ERROR := 6

  /** What the kernel offers when a suspend begins. */
  datatype Attempt = Attempt(rxPort: bool, txPort: bool, netdev: Option<NetDevice>, devices: seq<NetDevice>)

  predicate Succeeds(a: Attempt) { a.rxPort && a.txPort && a.netdev.Some? }

  /** The five databases, each with rows and a size. */
  datatype Databases = Databases(
    arp: seq<ArpEntry>, arpSize: nat, temporary: seq<NdpEntry>, temporarySize: nat,
    target: seq<NdpEntry>, targetSize: nat, echo4: seq<ArpEntry>, echo4Size: nat,
    echo6: seq<NdpEntry>, echo6Size: nat)

  /** What lies in memory behind each table. */
  datatype Memory = Memory(arp: seq<ArpEntry>, temporary: seq<NdpEntry>, target: seq<NdpEntry>)

  predicate HasCapacities(t: Tables, arpCapacity: nat, ndpCapacity: nat) {
    && 1 <= arpCapacity == |t.arp|
    && 1 <= ndpCapacity == |t.temporary| == |t.target|
  }

  /** The tables after one suspend, whether it succeeds or not. */
  function Suspend(t: Tables, a: Attempt): (r: Tables)
    requires HasCapacities(t, |t.arp|, |t.target|)
    ensures HasCapacities(r, |t.arp|, |t.target|)
  {
    if !a.rxPort || !a.txPort then t
    else if a.netdev.None? then t.(arpSize := 0, temporarySize := 0, targetSize := 0)
    else
      var arp := Ipv4.ArpWrites(a.netdev.value, a.devices, |t.arp|);
      var ndp := Ipv6.NdpWrites(a.netdev.value, a.devices, |a.devices|, |t.target|);
      Tables(Overlay(t.arp, arp), Overlay(t.temporary, ndp.temporary), Overlay(t.target, ndp.target),
             |arp|, |ndp.temporary|, |ndp.target|, |arp|, |ndp.target|)
  }

  /** What the controller is given: the tables and the sizes as they are. The echo databases share two tables. */
  function Handed(t: Tables): Databases {
    Databases(t.arp, t.arpSize, t.temporary, t.temporarySize, t.target, t.targetSize,
              t.arp, t.echo4Size, t.target, t.echo6Size)
  }

  /** The first `size` rows from the start of a table on, whether or not the table has that many. */
  function Read<T>(table: seq<T>, size: nat, behind: seq<T>): seq<T> {
    Take(table + behind, size)
  }

  /** What the controller finds in the databases it was given, with `m` in memory behind the tables. */
  function Seen(d: Databases, m: Memory): Databases {
    Databases(Read(d.arp, d.arpSize, m.arp), d.arpSize,
              Read(d.temporary, d.temporarySize, m.temporary), d.temporarySize,
              Read(d.target, d.targetSize, m.target), d.targetSize,
              Read(d.echo4, d.echo4Size, m.arp), d.echo4Size,
              Read(d.echo6, d.echo6Size, m.target), d.echo6Size)
  }

  /** What the tables and sizes of a state publish, with `m` in memory behind the tables. */
  function Published(t: Tables, m: Memory): Databases {
    Databases(Read(t.arp, t.arpSize, m.arp), t.arpSize,
              Read(t.temporary, t.temporarySize, m.temporary), t.temporarySize,
              Read(t.target, t.targetSize, m.target), t.targetSize,
              Read(t.arp, t.echo4Size, m.arp), t.echo4Size,
              Read(t.target, t.echo6Size, m.target), t.echo6Size)
  }

  /** Reading each database that is handed over, with its own size, gives what the state publishes. */
  lemma HandedIsPublished(t: Tables, m: Memory)
    ensures var h, p := Handed(t), Published(t, m);
            && Seen(h, m) == p
            && p.arp == Read(h.arp, h.arpSize, m.arp) && p.arpSize == h.arpSize == t.arpSize
            && p.temporary == Read(h.temporary, h.temporarySize, m.temporary)
            && p.temporarySize == h.temporarySize == t.temporarySize
            && p.target == Read(h.target, h.targetSize, m.target) && p.targetSize == h.targetSize == t.targetSize
            && p.echo4 == Read(h.echo4, h.echo4Size, m.arp) && p.echo4Size == h.echo4Size == t.echo4Size
            && p.echo6 == Read(h.echo6, h.echo6Size, m.target) && p.echo6Size == h.echo6Size == t.echo6Size
    ensures var h := Handed(t);
            && h.arp == h.echo4 == t.arp && h.temporary == t.temporary && h.target == h.echo6 == t.target
  {
  }

  /** There is memory for every row that is read. */
  predicate Covers(m: Memory, t: Tables) {
    && t.arpSize <= |t.arp| + |m.arp|
    && t.temporarySize <= |t.temporary| + |m.temporary|
    && t.targetSize <= |t.target| + |m.target|
  }

  /** The tables after a whole history of suspends. */
  function Run(t: Tables, history: seq<Attempt>): (r: Tables)
    requires HasCapacities(t, |t.arp|, |t.target|)
    ensures HasCapacities(r, |t.arp|, |t.target|)
  {
    if history == [] then t
    else Suspend(Run(t, history[..|history| - 1]), history[|history| - 1])
  }

  /** The sizes that a successful suspend publishes stay within the capacities. */
  predicate SizesFit(a: Attempt, arpCapacity: nat, ndpCapacity: nat)
    requires Succeeds(a)
  {
    var netdev, devices := a.netdev.value, a.devices;
    var ndp := Ipv6.NdpWrites(netdev, devices, |devices|, ndpCapacity);
    && |Ipv4.ArpWrites(netdev, devices, arpCapacity)| <= arpCapacity
    && |ndp.temporary| <= ndpCapacity && |ndp.target| <= ndpCapacity
  }

  /** That depends on the topology alone: no address is written to a table that is full already. */
  lemma SizesFitIff(a: Attempt, arpCapacity: nat, ndpCapacity: nat)
    requires Succeeds(a) && 1 <= arpCapacity && 1 <= ndpCapacity
    ensures var netdev, devices := a.netdev.value, a.devices;
            SizesFit(a, arpCapacity, ndpCapacity) <==>
            && Pass.NothingOverwritten(Source(netdev, false).ArpRows(), Ipv4.VlanRows(netdev, devices), arpCapacity)
            && forall i, kind | 1 <= i <= |devices| ::
                 !Saturation.Overwrites(netdev, devices, i, kind, ndpCapacity)
  {
    var netdev, devices := a.netdev.value, a.devices;
    Pass.SizeWithinCapacityIff(Source(netdev, false).ArpRows(), Ipv4.VlanRows(netdev, devices), arpCapacity);
    Saturation.SizeExceedsCapacityIff(netdev, devices, |devices|, Ipv6.Temporary, ndpCapacity);
    Saturation.SizeExceedsCapacityIff(netdev, devices, |devices|, Ipv6.Assigned, ndpCapacity);
    hide Pass.NothingOverwritten, Saturation.Overwrites, Ipv6.NdpWrites;
  }

  lemma ReadForgets<T>(table: seq<T>, table': seq<T>, writes: seq<T>, behind: seq<T>, behind': seq<T>)
    requires 1 <= |table| == |table'| && |writes| <= |table|
    ensures Read(Overlay(table, writes), |writes|, behind) == Read(Overlay(table', writes), |writes|, behind')
  {
    OverlayForgets(table, table', writes);
    var o, o' := Overlay(table, writes), Overlay(table', writes);
    assert (o + behind)[..|writes|] == o[..|writes|] && (o' + behind')[..|writes|] == o'[..|writes|];
  }

  /** A successful suspend publishes the same whatever the tables held before and whatever lies behind them. */
  lemma SuspendForgets(t: Tables, t': Tables, a: Attempt, m: Memory, m': Memory)
    requires HasCapacities(t, |t.arp|, |t.target|) && HasCapacities(t', |t.arp|, |t.target|)
    requires Succeeds(a) && SizesFit(a, |t.arp|, |t.target|)
    ensures Published(Suspend(t, a), m) == Published(Suspend(t', a), m')
  {
    var ndp := Ipv6.NdpWrites(a.netdev.value, a.devices, |a.devices|, |t.target|);
    var arp := Ipv4.ArpWrites(a.netdev.value, a.devices, |t.arp|);
    ReadForgets(t.arp, t'.arp, arp, m.arp, m'.arp);
    ReadForgets(t.temporary, t'.temporary, ndp.temporary, m.temporary, m'.temporary);
    ReadForgets(t.target, t'.target, ndp.target, m.target, m'.target);
    hide Read, Overlay, Ipv4.ArpWrites, Ipv6.NdpWrites;
  }

  /**
    History independence: after a successful suspend whose sizes fit, everything published is a function
    of the current topology and the capacities alone, for any two histories of successful and failed
    suspends and any memory behind the tables.
   */
  lemma HistoryIndependence(t: Tables, t': Tables, history: seq<Attempt>, history': seq<Attempt>,
                            a: Attempt, m: Memory, m': Memory)
    requires HasCapacities(t, |t.arp|, |t.target|) && HasCapacities(t', |t.arp|, |t.target|)
    requires Succeeds(a) && SizesFit(a, |t.arp|, |t.target|)
    ensures Published(Run(t, history + [a]), m) == Published(Run(t', history' + [a]), m')
  {
    assert (history + [a])[..|history|] == history && (history' + [a])[..|history'|] == history';
    SuspendForgets(Run(t, history), Run(t', history'), a, m, m');
  }

  /** Whatever lies behind the tables, the controller finds the same. */
  ghost predicate IsDetermined(t: Tables) {
    forall m, m' | Covers(m, t) && Covers(m', t) :: Published(t, m) == Published(t, m')
  }

  /** Reading beyond a table depends on what lies there. */
  lemma ReadBeyond<T>(table: seq<T>, size: nat, x: T, y: T)
    requires |table| < size && x != y
    ensures Read(table, size, Repeat(x, size)) != Read(table, size, Repeat(y, size))
  {
    assert (table + Repeat(x, size))[..size][|table|] == x;
    assert (table + Repeat(y, size))[..size][|table|] == y;
  }

  /** The published rows do not depend on the memory behind the tables exactly when the sizes fit. */
  lemma PublicationIsDeterminedIff(t: Tables, history: seq<Attempt>, a: Attempt)
    requires HasCapacities(t, |t.arp|, |t.target|) && Succeeds(a)
    ensures IsDetermined(Run(t, history + [a])) <==> SizesFit(a, |t.arp|, |t.target|)
  {
    assert (history + [a])[..|history|] == history;
    var r := Run(t, history + [a]);
    if SizesFit(a, |t.arp|, |t.target|) {
      forall m, m' | Covers(m, r) && Covers(m', r)
        ensures Published(r, m) == Published(r, m')
      {
        SuspendForgets(Run(t, history), Run(t, history), a, m, m');
      }
    } else {
      OversizedIsUndetermined(r);
    }
  }

  lemma OversizedIsUndetermined(t: Tables)
    requires |t.arp| < t.arpSize || |t.temporary| < t.temporarySize || |t.target| < t.targetSize
    ensures !IsDetermined(t)
  {
    var mac: Mac := [0, 0, 0, 0, 0, 0];
    var a, a' := ArpEntry(0, mac, false, 0), ArpEntry(1, mac, false, 0);
    var n, n' := NdpEntry(Ipv6Address(0, 0, 0, 0), mac, false, 0), NdpEntry(Ipv6Address(1, 0, 0, 0), mac, false, 0);
    var m := Memory(Repeat(a, t.arpSize), Repeat(n, t.temporarySize), Repeat(n, t.targetSize));
    var m' := Memory(Repeat(a', t.arpSize), Repeat(n', t.temporarySize), Repeat(n', t.targetSize));
    assert Covers(m, t) && Covers(m', t);
    if |t.arp| < t.arpSize {
      ReadBeyond(t.arp, t.arpSize, a, a');
    } else if |t.temporary| < t.temporarySize {
      ReadBeyond(t.temporary, t.temporarySize, n, n');
    } else {
      ReadBeyond(t.target, t.targetSize, n, n');
    }
    assert Published(t, m) != Published(t, m');
  }

  /** After any run that ends in success, the echo databases show what the ARP and assigned tables show. */
  lemma EchoViewsAgree(t: Tables, history: seq<Attempt>, a: Attempt, m: Memory)
    requires HasCapacities(t, |t.arp|, |t.target|) && Succeeds(a)
    ensures var d := Seen(Handed(Run(t, history + [a])), m);
            && d.echo4 == d.arp && d.echo4Size == d.arpSize
            && d.echo6 == d.target && d.echo6Size == d.targetSize
  {
    assert (history + [a])[..|history|] == history;
  }

  predicate EchoSizesAgree(t: Tables) {
    t.echo4Size == t.arpSize && t.echo6Size == t.targetSize
  }

  /** A suspend that finds its ports but no device clears the table sizes and not the echo sizes. */
  lemma EchoSizesAgreeAfterIff(t: Tables, a: Attempt)
    requires HasCapacities(t, |t.arp|, |t.target|)
    ensures EchoSizesAgree(Suspend(t, a)) <==>
            if Succeeds(a) then true
            else if a.rxPort && a.txPort then t.echo4Size == t.echo6Size == 0
            else EchoSizesAgree(t)
  {
  }

  /** All addresses of the topology, each in the database of its kind and in the echo database for it. */
  function Topology(a: Attempt): Databases
    requires Succeeds(a)
  {
    var netdev, devices := a.netdev.value, a.devices;
    var arp, ndp := Ipv4.AllArpRows(netdev, devices), Ipv6.AllRows(netdev, devices, |devices| + 1);
    Databases(arp, |arp|, ndp.temporary, |ndp.temporary|, ndp.target, |ndp.target|,
              arp, |arp|, ndp.target, |ndp.target|)
  }

  /** Where the topology shows the addresses of the physical device, and that there are no other rows. */
  lemma TopologyOfPhysical(a: Attempt, i: nat)
    requires Succeeds(a)
    ensures var d, netdev, devices := Topology(a), a.netdev.value, a.devices;
            && d.arpSize == |d.arp| == |netdev.ipv4| + Ipv4.VlanCount(netdev, devices, |devices|)
            && d.temporarySize == |d.temporary| ==
               Order.Count(netdev.ipv6, |netdev.ipv6|, Ipv6.Temporary) +
               Order.VlanCount(netdev, devices, |devices|, Ipv6.Temporary)
            && d.targetSize == |d.target| ==
               Order.Count(netdev.ipv6, |netdev.ipv6|, Ipv6.Assigned) +
               Order.VlanCount(netdev, devices, |devices|, Ipv6.Assigned)
            && (i < |netdev.ipv4| ==>
                  i < |d.arp| && d.arp[i] == ArpEntry(netdev.ipv4[i], netdev.mac, false, 0))
            && (i < |netdev.ipv6| ==>
                  var x := netdev.ipv6[i];
                  var row := NdpEntry(x.address, netdev.mac, false, 0);
                  && (x.temporary ==> IsRowAt(d.temporary, Order.Count(netdev.ipv6, i, Ipv6.Temporary), row))
                  && (x.permanent && !x.temporary ==>
                        IsRowAt(d.target, Order.Count(netdev.ipv6, i, Ipv6.Assigned), row)))
  {
    var netdev, devices := a.netdev.value, a.devices;
    Ipv4.RowsAreWrittenInOrder(netdev, devices, 1);
    Order.RowsAreCounted(netdev, devices, Ipv6.Temporary);
    Order.RowsAreCounted(netdev, devices, Ipv6.Assigned);
    if i < |netdev.ipv4| {
      Ipv4.PhysicalAddressAt(netdev, devices, i);
    }
    if i < |netdev.ipv6| {
      Order.PhysicalAddressAt(netdev, devices, i);
    }
    hide Ipv4.AllArpRows, Ipv6.AllRows, Ipv4.VlanCount, Order.VlanCount, Order.Count;
  }

  predicate IsRowAt(rows: seq<NdpEntry>, at: nat, row: NdpEntry) { at < |rows| && rows[at] == row }

  /** Where the topology shows the addresses of a running VLAN device. */
  lemma TopologyOfVlan(a: Attempt, dev: nat, i: nat)
    requires Succeeds(a) && dev < |a.devices|
    requires var vlan := a.devices[dev]; vlan.isVlan && vlan.realDev == a.netdev.value.ifindex && vlan.isUp
    ensures var d, netdev, devices, vlan := Topology(a), a.netdev.value, a.devices, a.devices[dev];
            && (i < |vlan.ipv4| ==>
                  var at := |netdev.ipv4| + Ipv4.VlanCount(netdev, devices, dev) + i;
                  at < |d.arp| && d.arp[at] == ArpEntry(vlan.ipv4[i], vlan.mac, true, vlan.vid))
            && (i < |vlan.ipv6| ==>
                  var x := vlan.ipv6[i];
                  var row := NdpEntry(x.address, vlan.mac, true, vlan.vid);
                  && (x.temporary ==>
                        IsRowAt(d.temporary, Order.VlanPosition(netdev, devices, dev, i, Ipv6.Temporary), row))
                  && (x.permanent && !x.temporary ==>
                        IsRowAt(d.target, Order.VlanPosition(netdev, devices, dev, i, Ipv6.Assigned), row)))
  {
    var netdev, devices := a.netdev.value, a.devices;
    if i < |devices[dev].ipv4| {
      Ipv4.VlanAddressAt(netdev, devices, dev, i);
    }
    if i < |devices[dev].ipv6| {
      Order.VlanAddressAt(netdev, devices, dev, i);
    }
    hide Ipv4.AllArpRows, Ipv6.AllRows, Ipv4.VlanCount, Order.VlanPosition;
  }

  /** The tables show the topology, as far as `d` describes one. */
  predicate Show(t: Tables, d: Databases) {
    && t.arpSize == |d.arp| && t.arpSize <= |t.arp| && t.arp[..t.arpSize] == d.arp
    && Ipv6.Shows(t.temporary, t.temporarySize, d.temporary)
    && Ipv6.Shows(t.target, t.targetSize, d.target)
  }

  lemma ShowTheTopologyIff(t: Tables, a: Attempt)
    requires HasCapacities(t, |t.arp|, |t.target|) && Succeeds(a)
    ensures var netdev, devices := a.netdev.value, a.devices;
            Show(Suspend(t, a), Topology(a)) <==>
            && |Ipv4.AllArpRows(netdev, devices)| <= |t.arp|
            && Ipv6.AllFit(netdev, devices, |t.target|)
            && forall i | 0 <= i < |devices| + 1 :: Ipv6.DeviceKeepsAll(netdev, devices, i, |t.target|)
  {
    var netdev, devices := a.netdev.value, a.devices;
    Pass.CompleteIffAllFit(Source(netdev, false).ArpRows(), Ipv4.VlanRows(netdev, devices), t.arp);
    Ipv6.CompleteIff(netdev, devices, Ipv6.NdpRows(t.temporary, t.target));
    hide Overlay, Pass.Writes, Ipv6.NdpWrites, Ipv6.AllFit, Ipv6.DeviceKeepsAll, Ipv6.AllRows, Ipv6.Shows, Flatten;
  }

  /** Reading takes the rows of the table, and after them those that lie behind it. */
  lemma ReadWithin<T>(table: seq<T>, size: nat, behind: seq<T>)
    requires size <= |table| + |behind|
    ensures Read(table, size, behind) ==
            if size <= |table| then table[..size] else table + behind[..size - |table|]
  {
    if size <= |table| {
      assert (table + behind)[..size] == table[..size];
    } else {
      assert (table + behind)[..size] == table + behind[..size - |table|];
    }
  }

  /** Tables whose sizes fit are read as they are. */
  lemma PublishedWithin(t: Tables, m: Memory)
    requires t.arpSize == t.echo4Size <= |t.arp| && t.targetSize == t.echo6Size <= |t.target|
    requires t.temporarySize <= |t.temporary|
    ensures Published(t, m) ==
            Databases(t.arp[..t.arpSize], t.arpSize, t.temporary[..t.temporarySize], t.temporarySize,
                      t.target[..t.targetSize], t.targetSize, t.arp[..t.arpSize], t.arpSize,
                      t.target[..t.targetSize], t.targetSize)
  {
    ReadWithin(t.arp, t.arpSize, m.arp);
    ReadWithin(t.temporary, t.temporarySize, m.temporary);
    ReadWithin(t.target, t.targetSize, m.target);
    hide Read;
  }

  /**
    A successful suspend publishes exactly the topology, and no row of an earlier suspend or from behind a
    table, if and only if all addresses fit and no IPv6 table fills up too early in any device.
   */
  lemma PublishesTheTopologyIff(t: Tables, history: seq<Attempt>, a: Attempt)
    requires HasCapacities(t, |t.arp|, |t.target|) && Succeeds(a)
    ensures var netdev, devices := a.netdev.value, a.devices;
            var r := Run(t, history + [a]);
            (forall m | Covers(m, r) :: Seen(Handed(r), m) == Topology(a)) <==>
            && |Ipv4.AllArpRows(netdev, devices)| <= |t.arp|
            && Ipv6.AllFit(netdev, devices, |t.target|)
            && forall i | 0 <= i < |devices| + 1 :: Ipv6.DeviceKeepsAll(netdev, devices, i, |t.target|)
  {
    assert (history + [a])[..|history|] == history;
    var r := Run(t, history + [a]);
    forall m
      ensures Seen(Handed(r), m) == Published(r, m)
    {
      HandedIsPublished(r, m);
    }
    PublicationIsDeterminedIff(t, history, a);
    ShowTheTopologyIff(Run(t, history), a);
    SuspendPublishesItsOwnRows(Run(t, history), a);
    hide Suspend, SizesFit, Run, Seen, Handed, Published, Ipv6.AllFit, Ipv6.DeviceKeepsAll, Ipv4.AllArpRows, Topology;
  }

  lemma SuspendPublishesItsOwnRows(t: Tables, a: Attempt)
    requires HasCapacities(t, |t.arp|, |t.target|) && Succeeds(a)
    requires IsDetermined(Suspend(t, a)) <==> SizesFit(a, |t.arp|, |t.target|)
    ensures var r := Suspend(t, a);
            (forall m | Covers(m, r) :: Published(r, m) == Topology(a)) <==> Show(r, Topology(a))
  {
    var r, d := Suspend(t, a), Topology(a);
    assert r.echo4Size == r.arpSize && r.echo6Size == r.targetSize;
    assert d.echo4 == d.arp && d.echo4Size == d.arpSize == |d.arp| && d.echo6 == d.target
      && d.echo6Size == d.targetSize == |d.target| && d.temporarySize == |d.temporary|;
    assert SizesFit(a, |t.arp|, |t.target|) <==>
      r.arpSize <= |r.arp| && r.temporarySize <= |r.temporary| && r.targetSize <= |r.target|;
    hide Suspend, Topology, SizesFit, Published;
    if r.arpSize <= |r.arp| && r.temporarySize <= |r.temporary| && r.targetSize <= |r.target| {
      forall m
        ensures Published(r, m) == d <==> Show(r, d)
      {
        PublishedWithin(r, m);
      }
      assert Covers(Memory([], [], []), r);
    }
  }

  /** Resets the sizes and fills the tables. */
  method GetInterfaceInfo(db: InterfaceDb, netdev: Option<NetDevice>, devices: seq<NetDevice>) returns (ret: int)
    requires db.Valid()
    modifies db, db.arpTable, db.temporaryTable, db.targetTable
    ensures ret == if netdev.Some? then AR_SUCCESS else -AR_GET_INFO_ERROR
    ensures db.echo4Size == old(db.echo4Size) && db.echo6Size == old(db.echo6Size)
    ensures netdev.None? ==>
              db.State() == old(db.State()).(arpSize := 0, temporarySize := 0, targetSize := 0)
    ensures netdev.Some? ==>
              && db.ArpHolds(old(db.arpTable[..]), Ipv4.ArpWrites(netdev.value, devices, db.arpTable.Length))
              && db.NdpHolds(Ipv6.NdpRows(old(db.temporaryTable[..]), old(db.targetTable[..])),
                             Ipv6.NdpWrites(netdev.value, devices, |devices|, db.targetTable.Length))
  {
    db.arpSize := 0;
    db.targetSize := 0;
    db.temporarySize := 0;
    if netdev.None? {
      return -AR_GET_INFO_ERROR;
    }
    db.GetIpv4Info(netdev.value, devices);
    db.GetIpv6Info(netdev.value, devices);
    return AR_SUCCESS;
  }

  /** The suspend handler. `handed` is what the controller receives, if anything. */
  method ProcessDeepSleepEvent(db: InterfaceDb, a: Attempt) returns (status: int, handed: Option<Databases>)
    requires db.Valid()
    modifies db, db.arpTable, db.temporaryTable, db.targetTable
    ensures status == if Succeeds(a) then AR_SUCCESS else AR_GET_INFO_ERROR
    ensures db.State() == Suspend(old(db.State()), a)
    ensures !(a.rxPort && a.txPort) ==> db.State() == old(db.State())
    ensures a.rxPort && a.txPort && a.netdev.None? ==>
              db.State() == old(db.State()).(arpSize := 0, temporarySize := 0, targetSize := 0)
    ensures status == 0 || status == 6
    ensures status == 0 <==> a.rxPort && a.txPort && a.netdev.Some?
    ensures handed.Some? <==> status == 0
    ensures handed.Some? ==>
              var h := handed.value;
              && h.arp == h.echo4 == db.arpTable[..] && h.arpSize == h.echo4Size == db.arpSize
              && h.temporary == db.temporaryTable[..] && h.temporarySize == db.temporarySize
              && h.target == h.echo6 == db.targetTable[..] && h.targetSize == h.echo6Size == db.targetSize
    ensures handed == if Succeeds(a) then Some(Handed(Suspend(old(db.State()), a))) else None
  {
    if !a.rxPort || !a.txPort {
      return AR_GET_INFO_ERROR, None;
    }
    var ret := GetInterfaceInfo(db, a.netdev, a.devices);
    if ret != AR_SUCCESS {
      return AR_GET_INFO_ERROR, None;
    }
    db.echo4Size := db.arpSize;
    db.echo6Size := db.targetSize;
    handed := Some(Databases(
      db.arpTable[..], db.arpSize, db.temporaryTable[..], db.temporarySize, db.targetTable[..], db.targetSize,
      db.echo4Table[..], db.echo4Size, db.echo6Table[..], db.echo6Size));
    return AR_SUCCESS, handed;
  }
}
