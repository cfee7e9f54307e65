/**
  Full tables in the IPv6 pass: which addresses a walk still files, the closed form of each table while the
  other one has room, when a published size exceeds the capacity, and whose addresses the written rows are.
 */
module Ipv6Saturation {
  import opened Sequences
  import opened Devices
  import opened BoundedTable
  import opened BoundedPass
  import opened Ipv6Collection

  function Other(kind: Kind): Kind { if kind.Temporary? then Assigned else Temporary }

  /** Whether `a` goes to the table of `kind`. With the temporary table shut, both flags mean the target table. */
  predicate GoesTo(a: Ipv6Assignment, kind: Kind, shut: Shut) {
    var temporary := a.temporary && !shut.temporary;
    if kind.Temporary? then temporary else !temporary && a.permanent && !shut.target
  }

  /** The rows for the table of `kind` from the addresses `lo..hi` of `s`. */
  function Routed(s: Source, lo: nat, hi: nat, kind: Kind, shut: Shut): seq<NdpEntry>
    requires lo <= hi <= |s.device.ipv6|
    decreases hi - lo
  {
    if lo == hi then []
    else
      var a := s.device.ipv6[lo];
      (if GoesTo(a, kind, shut) then [s.NdpRow(a)] else []) + Routed(s, lo + 1, hi, kind, shut)
  }

  /** Whether a walk that starts at address `k` and files each address finds a table full after address `j`. */
  predicate Fills(s: Source, k: nat, j: nat, rows: NdpRows, shut: Shut, capacity: nat)
    requires k <= j < |s.device.ipv6|
  {
    FillsKind(s, k, j, rows, Temporary, shut, capacity) || FillsKind(s, k, j, rows, Assigned, shut, capacity)
  }

  predicate FillsKind(s: Source, k: nat, j: nat, rows: NdpRows, kind: Kind, shut: Shut, capacity: nat)
    requires k <= j < |s.device.ipv6|
  {
    && GoesTo(s.device.ipv6[j], kind, shut)
    && capacity <= |rows.Of(kind)| + |Routed(s, k, j + 1, kind, shut)|
  }

  /** Address `e - 1` is the first one that leaves its table full, or no address before the end does. */
  ghost predicate IsEnd(s: Source, k: nat, e: nat, rows: NdpRows, shut: Shut, capacity: nat) {
    && k <= e <= |s.device.ipv6|
    && (forall j | k <= j < e - 1 :: !Fills(s, k, j, rows, shut, capacity))
    && (e < |s.device.ipv6| ==> k < e && Fills(s, k, e - 1, rows, shut, capacity))
  }

  /** The rows once all addresses in `k..e` have been filed. */
  function Filed(s: Source, k: nat, e: nat, rows: NdpRows, shut: Shut): NdpRows
    requires k <= e <= |s.device.ipv6|
  {
    NdpRows(rows.temporary + Routed(s, k, e, Temporary, shut), rows.target + Routed(s, k, e, Assigned, shut))
  }

  /** The rows after the address at index `k` alone has been filed. */
  function FileNext(s: Source, k: nat, rows: NdpRows, shut: Shut): NdpRows
    requires k < |s.device.ipv6|
  {
    var a := s.device.ipv6[k];
    if GoesTo(a, Temporary, shut) then rows.AddTemporary(s.NdpRow(a))
    else if GoesTo(a, Assigned, shut) then rows.AddAssigned(s.NdpRow(a))
    else rows
  }

  lemma RoutedLater(s: Source, k: nat, e: nat, rows: NdpRows, kind: Kind, shut: Shut)
    requires k < e <= |s.device.ipv6|
    ensures rows.Of(kind) + Routed(s, k, e, kind, shut) ==
            FileNext(s, k, rows, shut).Of(kind) + Routed(s, k + 1, e, kind, shut)
  {
    Associative(rows.Of(kind), [s.NdpRow(s.device.ipv6[k])], Routed(s, k + 1, e, kind, shut));
  }

  /** Starting one address later with that address filed makes no difference. */
  lemma FillsLater(s: Source, k: nat, j: nat, rows: NdpRows, shut: Shut, capacity: nat)
    requires k < j < |s.device.ipv6|
    ensures Fills(s, k, j, rows, shut, capacity) <==>
            Fills(s, k + 1, j, FileNext(s, k, rows, shut), shut, capacity)
  {
    hide FileNext;
    forall kind
      ensures FillsKind(s, k, j, rows, kind, shut, capacity) <==>
              FillsKind(s, k + 1, j, FileNext(s, k, rows, shut), kind, shut, capacity)
    {
      RoutedLater(s, k, j + 1, rows, kind, shut);
      hide Routed;
    }
    hide FillsKind;
  }

  lemma FiledLater(s: Source, k: nat, e: nat, rows: NdpRows, shut: Shut)
    requires k < e <= |s.device.ipv6|
    ensures Filed(s, k, e, rows, shut) == Filed(s, k + 1, e, FileNext(s, k, rows, shut), shut)
  {
    RoutedLater(s, k, e, rows, Temporary, shut);
    RoutedLater(s, k, e, rows, Assigned, shut);
    hide Routed, FileNext;
  }

  lemma FillsFirst(s: Source, k: nat, rows: NdpRows, shut: Shut, capacity: nat)
    requires k < |s.device.ipv6|
    ensures var a := s.device.ipv6[k];
            Fills(s, k, k, rows, shut, capacity) <==>
            || (GoesTo(a, Temporary, shut) && capacity <= |rows.temporary| + 1)
            || (GoesTo(a, Assigned, shut) && capacity <= |rows.target| + 1)
  {
    assert Routed(s, k + 1, k + 1, Temporary, shut) == [] && Routed(s, k + 1, k + 1, Assigned, shut) == [];
  }

  lemma ScanLater(s: Source, k: nat, rows: NdpRows, shut: Shut, capacity: nat)
    requires k < |s.device.ipv6|
    ensures var next := FileNext(s, k, rows, shut);
            Scan(s, k, rows, shut, capacity) ==
            if Fills(s, k, k, rows, shut, capacity) then next else Scan(s, k + 1, next, shut, capacity)
  {
    FillsFirst(s, k, rows, shut, capacity);
    hide Fills;
  }

  lemma EndLater(s: Source, k: nat, e: nat, rows: NdpRows, shut: Shut, capacity: nat)
    requires k < |s.device.ipv6| && !Fills(s, k, k, rows, shut, capacity)
    ensures IsEnd(s, k, e, rows, shut, capacity) <==>
            IsEnd(s, k + 1, e, FileNext(s, k, rows, shut), shut, capacity)
  {
    var m, next := k + 1, FileNext(s, k, rows, shut);
    forall j | k < j < |s.device.ipv6|
      ensures Fills(s, k, j, rows, shut, capacity) <==> Fills(s, m, j, next, shut, capacity)
    {
      FillsLater(s, k, j, rows, shut, capacity);
    }
    hide Fills, FileNext;
  }

  /** A walk files exactly the addresses up to the one that leaves its table full, whatever is shut or full before. */
  lemma {:induction false} WalkFilesUpToItsEnd(s: Source, k: nat, rows: NdpRows, shut: Shut, capacity: nat, e: nat)
    requires IsEnd(s, k, e, rows, shut, capacity)
    ensures Scan(s, k, rows, shut, capacity) == Filed(s, k, e, rows, shut)
    decreases |s.device.ipv6| - k
  {
    if k != |s.device.ipv6| {
      ScanLater(s, k, rows, shut, capacity);
      FiledLater(s, k, e, rows, shut);
      var next := FileNext(s, k, rows, shut);
      if Fills(s, k, k, rows, shut, capacity) {
        assert e == k + 1;
        assert Filed(s, k + 1, k + 1, next, shut) == next;
      } else {
        EndLater(s, k, e, rows, shut, capacity);
        WalkFilesUpToItsEnd(s, k + 1, next, shut, capacity, e);
      }
    }
  }

  /** Every walk has such an end. */
  lemma {:induction false} WalkEnds(s: Source, k: nat, rows: NdpRows, shut: Shut, capacity: nat)
    requires k <= |s.device.ipv6|
    ensures exists e :: IsEnd(s, k, e, rows, shut, capacity)
    decreases |s.device.ipv6| - k
  {
    if k == |s.device.ipv6| {
      assert IsEnd(s, k, k, rows, shut, capacity);
    } else if Fills(s, k, k, rows, shut, capacity) {
      assert IsEnd(s, k, k + 1, rows, shut, capacity);
    } else {
      var next := FileNext(s, k, rows, shut);
      WalkEnds(s, k + 1, next, shut, capacity);
      var e :| IsEnd(s, k + 1, e, next, shut, capacity);
      EndLater(s, k, e, rows, shut, capacity);
    }
  }

  // Sizes beyond the capacity.

  /**
    Whether address `j` goes to the table of `kind` and the walk, having started at address `k`, gets
    that far: the other table does not become full on the way.
   */
  predicate ReachesAt(s: Source, k: nat, j: nat, rows: NdpRows, kind: Kind, shut: Shut, capacity: nat)
    requires k <= j < |s.device.ipv6|
  {
    var others := |Routed(s, k, j, Other(kind), shut)|;
    GoesTo(s.device.ipv6[j], kind, shut) && (others == 0 || |rows.Of(Other(kind))| + others < capacity)
  }

  ghost predicate Reaches(s: Source, k: nat, rows: NdpRows, kind: Kind, shut: Shut, capacity: nat) {
    exists j | k <= j < |s.device.ipv6| :: ReachesAt(s, k, j, rows, kind, shut, capacity)
  }

  lemma ReachesLater(s: Source, k: nat, rows: NdpRows, kind: Kind, shut: Shut, capacity: nat)
    requires k < |s.device.ipv6|
    ensures var a := s.device.ipv6[k];
            Reaches(s, k, rows, kind, shut, capacity) <==>
            || GoesTo(a, kind, shut)
            || (!(GoesTo(a, Other(kind), shut) && capacity <= |rows.Of(Other(kind))| + 1)
                && Reaches(s, k + 1, FileNext(s, k, rows, shut), kind, shut, capacity))
  {
    var a, m, next := s.device.ipv6[k], k + 1, FileNext(s, k, rows, shut);
    assert ReachesAt(s, k, k, rows, kind, shut, capacity) <==> GoesTo(a, kind, shut);
    var blocked := GoesTo(a, Other(kind), shut) && capacity <= |rows.Of(Other(kind))| + 1;
    forall j | k < j < |s.device.ipv6|
      ensures !GoesTo(a, kind, shut) ==>
                (ReachesAt(s, k, j, rows, kind, shut, capacity) <==>
                 !blocked && ReachesAt(s, m, j, next, kind, shut, capacity))
    {
      RoutedLater(s, k, j, rows, Other(kind), shut);
    }
    hide ReachesAt, FileNext;
  }

  /** A walk fills a table up to the capacity; beyond that it adds one row, if it reaches an address of that kind. */
  lemma {:induction false} WalkOverfillsIff(
    s: Source, k: nat, rows: NdpRows, kind: Kind, shut: Shut, capacity: nat)
    requires k <= |s.device.ipv6|
    ensures var before, after := |rows.Of(kind)|, |Scan(s, k, rows, shut, capacity).Of(kind)|;
            && (before < capacity ==> after <= capacity)
            && (capacity <= before ==>
                  after == before + if Reaches(s, k, rows, kind, shut, capacity) then 1 else 0)
    decreases |s.device.ipv6| - k
  {
    if k != |s.device.ipv6| {
      ScanLater(s, k, rows, shut, capacity);
      FillsFirst(s, k, rows, shut, capacity);
      ReachesLater(s, k, rows, kind, shut, capacity);
      WalkOverfillsIff(s, k + 1, FileNext(s, k, rows, shut), kind, shut, capacity);
      hide Fills, Reaches;
    }
  }

  /** The `i`-th entry of the device list has an address that is written to a table that is full already. */
  ghost predicate Overwrites(netdev: NetDevice, devices: seq<NetDevice>, i: nat, kind: Kind, capacity: nat)
    requires 1 <= i <= |devices|
  {
    var before := NdpWrites(netdev, devices, i - 1, capacity);
    && capacity <= |before.Of(kind)|
    && Reaches(Visited(netdev, devices, i), 0, before, kind, ShutByPhysical(netdev, capacity), capacity)
  }

  /** A published size exceeds the capacity exactly when some VLAN device reaches a table that is full already. */
  lemma {:induction false} SizeExceedsCapacityIff(
    netdev: NetDevice, devices: seq<NetDevice>, n: nat, kind: Kind, capacity: nat)
    requires 1 <= capacity && n <= |devices|
    ensures capacity < |NdpWrites(netdev, devices, n, capacity).Of(kind)| <==>
            exists i | 1 <= i <= n :: Overwrites(netdev, devices, i, kind, capacity)
  {
    hide Scan, Reaches;
    if n == 0 {
      WalkOverfillsIff(Source(netdev, false), 0, NO_ROWS, kind, NONE_SHUT, capacity);
    } else {
      SizeExceedsCapacityIff(netdev, devices, n - 1, kind, capacity);
      WalkOverfillsIff(Visited(netdev, devices, n), 0, NdpWrites(netdev, devices, n - 1, capacity),
                       kind, ShutByPhysical(netdev, capacity), capacity);
      assert Overwrites(netdev, devices, n, kind, capacity) <==>
        && capacity <= |NdpWrites(netdev, devices, n - 1, capacity).Of(kind)|
        && Reaches(Visited(netdev, devices, n), 0, NdpWrites(netdev, devices, n - 1, capacity), kind,
                   ShutByPhysical(netdev, capacity), capacity);
      hide Overwrites;
    }
  }

  /** The size counters never pass the capacity by more than the number of devices. */
  lemma {:induction false} SizeBound(netdev: NetDevice, devices: seq<NetDevice>, n: nat, kind: Kind, capacity: nat)
    requires 1 <= capacity && n <= |devices|
    ensures |NdpWrites(netdev, devices, n, capacity).Of(kind)| <= capacity + n
  {
    hide Scan, Reaches;
    if n == 0 {
      WalkOverfillsIff(Source(netdev, false), 0, NO_ROWS, kind, NONE_SHUT, capacity);
    } else {
      SizeBound(netdev, devices, n - 1, kind, capacity);
      WalkOverfillsIff(Visited(netdev, devices, n), 0, NdpWrites(netdev, devices, n - 1, capacity),
                       kind, ShutByPhysical(netdev, capacity), capacity);
    }
  }

  /** When all addresses fit, both sizes stay within the capacity. */
  lemma SizesFitWhenAllFit(netdev: NetDevice, devices: seq<NetDevice>, capacity: nat)
    requires AllFit(netdev, devices, capacity)
    ensures var rows := NdpWrites(netdev, devices, |devices|, capacity);
            |rows.temporary| <= capacity && |rows.target| <= capacity
  {
    var rows, all := NdpWrites(netdev, devices, |devices|, capacity), AllRows(netdev, devices, |devices| + 1);
    ShutTablesDoNotMatter(netdev, devices, |devices|, capacity);
    CollectsSubsequences(netdev, devices, |devices|, NONE_SHUT, capacity);
    SubsequenceLength(rows.temporary, all.temporary);
    SubsequenceLength(rows.target, all.target);
  }

  // One table while the other has room.

  function From(s: Source, k: nat, kind: Kind): seq<NdpEntry>
    requires k <= |s.device.ipv6|
  {
    if kind.Temporary? then TemporaryFrom(s, k) else AssignedFrom(s, k)
  }

  lemma FromLater(s: Source, k: nat, kind: Kind)
    requires k < |s.device.ipv6|
    ensures var a := s.device.ipv6[k];
            From(s, k, kind) ==
            if (if kind.Temporary? then a.temporary else IsAssigned(a)) then [s.NdpRow(a)] + From(s, k + 1, kind)
            else From(s, k + 1, kind)
  {
  }

  /** `r` is `before` and then the rows of `more` that a pass keeps in a table of that capacity. */
  predicate KeepsFirst(before: seq<NdpEntry>, r: seq<NdpEntry>, more: seq<NdpEntry>, capacity: nat) {
    r == before + FirstRows(more, capacity - |before|)
  }

  lemma KeepsFirstOfNothing(before: seq<NdpEntry>, capacity: nat)
    ensures KeepsFirst(before, before, [], capacity)
  {
  }

  lemma KeepsFirstStep(before: seq<NdpEntry>, row: NdpEntry, r: seq<NdpEntry>, more: seq<NdpEntry>, capacity: nat)
    ensures if capacity <= |before| + 1 then KeepsFirst(before, before + [row], [row] + more, capacity)
            else KeepsFirst(before + [row], r, more, capacity) ==> KeepsFirst(before, r, [row] + more, capacity)
  {
    Associative(before, [row], FirstRows(more, capacity - |before| - 1));
  }

  /** As long as the other table is not filled, a walk keeps all rows of one kind that fit, but at least one. */
  lemma {:induction false} WalkKeepsFirstRows(
    s: Source, k: nat, rows: NdpRows, kind: Kind, shut: Shut, capacity: nat)
    requires k <= |s.device.ipv6| && (kind.Assigned? ==> !shut.temporary)
    requires |Scan(s, k, rows, shut, capacity).Of(Other(kind))| < capacity
    ensures var r := Scan(s, k, rows, shut, capacity).Of(kind);
            if shut.Of(kind) then r == rows.Of(kind)
            else KeepsFirst(rows.Of(kind), r, From(s, k, kind), capacity)
    decreases |s.device.ipv6| - k
  {
    hide KeepsFirst;
    if k == |s.device.ipv6| {
      KeepsFirstOfNothing(rows.Of(kind), capacity);
    } else {
      var row, r := s.NdpRow(s.device.ipv6[k]), Scan(s, k, rows, shut, capacity).Of(kind);
      ScanLater(s, k, rows, shut, capacity);
      FillsFirst(s, k, rows, shut, capacity);
      FromLater(s, k, kind);
      KeepsFirstStep(rows.Of(kind), row, r, From(s, k + 1, kind), capacity);
      hide Scan, Fills, From;
      if !Fills(s, k, k, rows, shut, capacity) {
        WalkKeepsFirstRows(s, k + 1, FileNext(s, k, rows, shut), kind, shut, capacity);
      }
    }
  }

  /** The rows of one kind of each entry of the device list. */
  function VlanRows(netdev: NetDevice, devices: seq<NetDevice>, kind: Kind): seq<seq<NdpEntry>> {
    seq(|devices|, i requires 0 <= i < |devices| => From(Visited(netdev, devices, i + 1), 0, kind))
  }

  /** The other table has room up to the end, so that it cuts no address list short. */
  predicate OtherHasRoom(netdev: NetDevice, devices: seq<NetDevice>, n: nat, kind: Kind, capacity: nat)
    requires n <= |devices|
  {
    |NdpWrites(netdev, devices, n, capacity).Of(Other(kind))| < capacity
  }

  lemma PhysicalKeepsFirst(netdev: NetDevice, kind: Kind, capacity: nat)
    requires 1 <= capacity && |PhysicalRows(netdev, capacity).Of(Other(kind))| < capacity
    ensures PhysicalRows(netdev, capacity).Of(kind) == Take(From(Source(netdev, false), 0, kind), capacity)
  {
    hide Scan, From;
    WalkKeepsFirstRows(Source(netdev, false), 0, NO_ROWS, kind, NONE_SHUT, capacity);
  }

  lemma SizesGrow(netdev: NetDevice, devices: seq<NetDevice>, n: nat, kind: Kind, capacity: nat)
    requires 1 <= n <= |devices|
    ensures |NdpWrites(netdev, devices, n - 1, capacity).Of(kind)| <= |NdpWrites(netdev, devices, n, capacity).Of(kind)|
  {
    ScanAddsPrefixes(Visited(netdev, devices, n), NdpWrites(netdev, devices, n - 1, capacity),
                     ShutByPhysical(netdev, capacity), capacity);
    hide Scan, AddsPrefix;
  }

  /** While the other table has room, a table receives what a bounded pass over the rows of its kind writes. */
  lemma {:induction false} TableIsBoundedPass(
    netdev: NetDevice, devices: seq<NetDevice>, n: nat, kind: Kind, capacity: nat)
    requires 1 <= capacity && n <= |devices| && OtherHasRoom(netdev, devices, n, kind, capacity)
    ensures var physical := From(Source(netdev, false), 0, kind);
            NdpWrites(netdev, devices, n, capacity).Of(kind) ==
            WritesUpTo(physical, VlanRows(netdev, devices, kind), n, capacity)
    ensures |PhysicalRows(netdev, capacity).Of(Other(kind))| < capacity
  {
    hide Scan, From, FirstRows, PhysicalRows, WritesUpTo;
    var physical, vlan := From(Source(netdev, false), 0, kind), VlanRows(netdev, devices, kind);
    if n == 0 {
      PhysicalKeepsFirst(netdev, kind, capacity);
      WritesUpToNothing(physical, vlan, capacity);
    } else {
      SizesGrow(netdev, devices, n, Other(kind), capacity);
      TableIsBoundedPass(netdev, devices, n - 1, kind, capacity);
      PhysicalKeepsFirst(netdev, kind, capacity);
      WalkKeepsFirstRows(Visited(netdev, devices, n), 0, NdpWrites(netdev, devices, n - 1, capacity), kind,
                         ShutByPhysical(netdev, capacity), capacity);
      WritesUpToNext(physical, vlan, n - 1, capacity);
    }
  }

  lemma {:induction false} AllRowsAreListed(netdev: NetDevice, devices: seq<NetDevice>, n: nat, kind: Kind)
    requires n <= |devices|
    ensures AllRows(netdev, devices, n + 1).Of(kind) ==
            From(Source(netdev, false), 0, kind) + Flatten(VlanRows(netdev, devices, kind), n)
  {
    hide TemporaryFrom, AssignedFrom;
    var physical, vlan := From(Source(netdev, false), 0, kind), VlanRows(netdev, devices, kind);
    if n == 0 {
      assert AllRows(netdev, devices, 0) == NO_ROWS;
    } else {
      AllRowsAreListed(netdev, devices, n - 1, kind);
      Associative(physical, Flatten(vlan, n - 1), vlan[n - 1]);
    }
  }

  /** Size and every slot of one NDP table, for every topology in which the other table keeps room. */
  lemma ExactResult(netdev: NetDevice, devices: seq<NetDevice>, stale: seq<NdpEntry>, kind: Kind)
    requires 1 <= |stale| && OtherHasRoom(netdev, devices, |devices|, kind, |stale|)
    ensures var writes := NdpWrites(netdev, devices, |devices|, |stale|).Of(kind);
            var room := |stale| - |From(Source(netdev, false), 0, kind)|;
            var later := Later(VlanRows(netdev, devices, kind), |devices|, room);
            IsExactResult(AllRows(netdev, devices, |devices| + 1).Of(kind), later, stale,
                          |writes|, Overlay(stale, writes))
  {
    hide NdpWrites, From, AllRows, Accepted, Later, IsExactResult;
    TableIsBoundedPass(netdev, devices, |devices|, kind, |stale|);
    AllRowsAreListed(netdev, devices, |devices|, kind);
    BoundedPass.ExactResult(From(Source(netdev, false), 0, kind), VlanRows(netdev, devices, kind), stale);
  }

  /** The published size of such a table stays within the capacity exactly when no row overwrites another. */
  lemma SizeWithinCapacityIff(netdev: NetDevice, devices: seq<NetDevice>, kind: Kind, capacity: nat)
    requires 1 <= capacity && OtherHasRoom(netdev, devices, |devices|, kind, capacity)
    ensures |NdpWrites(netdev, devices, |devices|, capacity).Of(kind)| <= capacity <==>
            NothingOverwritten(From(Source(netdev, false), 0, kind), VlanRows(netdev, devices, kind), capacity)
  {
    hide NdpWrites, From, Accepted, NothingOverwritten;
    TableIsBoundedPass(netdev, devices, |devices|, kind, capacity);
    BoundedPass.SizeWithinCapacityIff(
      From(Source(netdev, false), 0, kind), VlanRows(netdev, devices, kind), capacity);
  }

  /** With fewer addresses of a kind than slots, and no address of both kinds, its table keeps room. */
  lemma FewAddressesLeaveRoom(netdev: NetDevice, devices: seq<NetDevice>, kind: Kind, capacity: nat)
    requires |AllRows(netdev, devices, |devices| + 1).Of(Other(kind))| < capacity
    requires kind.Temporary? ==> HaveExclusiveFlags(netdev, devices)
    ensures OtherHasRoom(netdev, devices, |devices|, kind, capacity)
  {
    var rows, all := NdpWrites(netdev, devices, |devices|, capacity), AllRows(netdev, devices, |devices| + 1);
    CollectsSubsequences(netdev, devices, |devices|, ShutByPhysical(netdev, capacity), capacity);
    SubsequenceLength(rows.Of(Other(kind)), all.Of(Other(kind)));
  }

  /**
    Every row written, also to saturated tables, is one of the rows of its kind, in their order, and so it
    carries the data of its device. The target table is the exception when the physical device has filled
    the temporary table: it then also receives the VLAN addresses that carry both flags.
   */
  lemma WrittenRowsAreFromTheirDevices(netdev: NetDevice, devices: seq<NetDevice>, kind: Kind, capacity: nat)
    requires kind.Temporary? || HaveExclusiveFlags(netdev, devices) || !ShutByPhysical(netdev, capacity).temporary
    ensures var writes := NdpWrites(netdev, devices, |devices|, capacity).Of(kind);
            && Subsequence(writes, AllRows(netdev, devices, |devices| + 1).Of(kind))
            && forall row | row in writes :: IsRowFor(netdev, devices, kind.Temporary?, row)
  {
    hide NdpWrites, AllRows, IsRowFor, Subsequence;
    var writes := NdpWrites(netdev, devices, |devices|, capacity).Of(kind);
    var all := AllRows(netdev, devices, |devices| + 1).Of(kind);
    CollectedIsSubsequence(netdev, devices, capacity);
    forall row | row in writes
      ensures IsRowFor(netdev, devices, kind.Temporary?, row)
    {
      SubsequenceMember(writes, all, row);
      RowsAreFromTheirDevices(netdev, devices, row);
    }
  }

  lemma CollectedIsSubsequence(netdev: NetDevice, devices: seq<NetDevice>, capacity: nat)
    ensures var rows, all := NdpWrites(netdev, devices, |devices|, capacity), AllRows(netdev, devices, |devices| + 1);
            && Subsequence(rows.temporary, all.temporary)
            && (!ShutByPhysical(netdev, capacity).temporary || HaveExclusiveFlags(netdev, devices) ==>
                  Subsequence(rows.target, all.target))
  {
    CollectsSubsequences(netdev, devices, |devices|, ShutByPhysical(netdev, capacity), capacity);
  }

  /** `row` is the row of an address of the `i`-th visited device that goes to the table of `kind`. */
  ghost predicate IsRoutedFrom(
    netdev: NetDevice, devices: seq<NetDevice>, i: nat, kind: Kind, capacity: nat, row: NdpEntry)
    requires i <= |devices|
  {
    var shut := if i == 0 then NONE_SHUT else ShutByPhysical(netdev, capacity);
    IsRoutedIn(Visited(netdev, devices, i), 0, kind, shut, row)
  }

  ghost predicate IsRoutedIn(s: Source, k: nat, kind: Kind, shut: Shut, row: NdpEntry) {
    exists j | k <= j < |s.device.ipv6| :: GoesTo(s.device.ipv6[j], kind, shut) && row == s.NdpRow(s.device.ipv6[j])
  }

  lemma {:induction false} RoutedMembers(s: Source, k: nat, e: nat, kind: Kind, shut: Shut, row: NdpEntry)
    requires k <= e <= |s.device.ipv6| && row in Routed(s, k, e, kind, shut)
    ensures IsRoutedIn(s, k, kind, shut, row)
    decreases e - k
  {
    var a := s.device.ipv6[k];
    if !(GoesTo(a, kind, shut) && row == s.NdpRow(a)) {
      RoutedMembers(s, k + 1, e, kind, shut, row);
    }
  }

  lemma WalkAddsRouted(s: Source, rows: NdpRows, kind: Kind, shut: Shut, capacity: nat, row: NdpEntry)
    requires row in Scan(s, 0, rows, shut, capacity).Of(kind)
    ensures row in rows.Of(kind) || IsRoutedIn(s, 0, kind, shut, row)
  {
    WalkEnds(s, 0, rows, shut, capacity);
    var e :| IsEnd(s, 0, e, rows, shut, capacity);
    WalkFilesUpToItsEnd(s, 0, rows, shut, capacity, e);
    if row in Routed(s, 0, e, kind, shut) {
      RoutedMembers(s, 0, e, kind, shut, row);
    }
    hide Scan, Routed, IsEnd, IsRoutedIn;
  }

  /**
    For every topology and both flags, every row written is that of an address that goes to its table: for the
    target table a permanent one that is not temporary, or one with both flags behind a shut temporary table.
   */
  lemma {:induction false} WrittenRowsAreRouted(
    netdev: NetDevice, devices: seq<NetDevice>, n: nat, kind: Kind, capacity: nat, row: NdpEntry)
    requires n <= |devices| && row in NdpWrites(netdev, devices, n, capacity).Of(kind)
    ensures exists i | 0 <= i <= n :: IsRoutedFrom(netdev, devices, i, kind, capacity, row)
  {
    hide Scan, IsRoutedIn;
    if n == 0 {
      WalkAddsRouted(Source(netdev, false), NO_ROWS, kind, NONE_SHUT, capacity, row);
      assert IsRoutedFrom(netdev, devices, 0, kind, capacity, row);
    } else if row in NdpWrites(netdev, devices, n - 1, capacity).Of(kind) {
      WrittenRowsAreRouted(netdev, devices, n - 1, kind, capacity, row);
    } else {
      WalkAddsRouted(Visited(netdev, devices, n), NdpWrites(netdev, devices, n - 1, capacity), kind,
                     ShutByPhysical(netdev, capacity), capacity, row);
      assert IsRoutedFrom(netdev, devices, n, kind, capacity, row);
    }
  }

  // Small topologies that show what can go wrong.

  function Device(isVlan: bool, ipv6: seq<Ipv6Assignment>): NetDevice {
    NetDevice(0, isVlan, 0, true, [0, 0, 0, 0, 0, 0], 0, [], ipv6)
  }

  /** Two VLAN devices with a temporary address each push the size past a capacity of one. */
  lemma SizeCanExceedCapacity(a: Ipv6Address)
    ensures var vlan := Device(true, [Ipv6Assignment(a, true, false)]);
            |NdpWrites(Device(false, []), [vlan, vlan], 2, 1).temporary| == 2
  {
    var netdev, vlan := Device(false, []), Device(true, [Ipv6Assignment(a, true, false)]);
    var row := Source(vlan, true).NdpRow(vlan.ipv6[0]);
    assert NdpWrites(netdev, [vlan, vlan], 0, 1) == NO_ROWS;
    assert NdpWrites(netdev, [vlan, vlan], 1, 1) == NdpRows([row], []);
  }

  /** An address with both flags ends up in the target table once the physical device has filled the other one. */
  lemma ShutTableMisplacesAddresses(a: Ipv6Address, b: Ipv6Address)
    ensures var vlan := Device(true, [Ipv6Assignment(b, true, true)]);
            var netdev := Device(false, [Ipv6Assignment(a, true, false)]);
            && AllRows(netdev, [vlan], 2).target == []
            && NdpWrites(netdev, [vlan], 1, 1).target == [Source(vlan, true).NdpRow(vlan.ipv6[0])]
  {
    var vlan, netdev := Device(true, [Ipv6Assignment(b, true, true)]), Device(false, [Ipv6Assignment(a, true, false)]);
    var row := Source(netdev, false).NdpRow(netdev.ipv6[0]);
    assert AllRows(netdev, [vlan], 0) == NO_ROWS;
    assert AssignedFrom(Source(netdev, false), 1) == [] && AssignedFrom(Source(vlan, true), 1) == [];
    assert AllRows(netdev, [vlan], 1).target == [];
    assert NdpWrites(netdev, [vlan], 0, 1) == NdpRows([row], []);
  }
}
