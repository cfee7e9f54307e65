/**
  What the IPv6 pass writes. Temporary addresses go to one NDP table and permanent ones, the assigned
  addresses, to the target table; a write that finds its table full leaves the address list of the
  current device at once, for both kinds of address.
 */
module Ipv6Collection {
  import opened Sequences
  import opened Devices
  import opened BoundedTable

  /** The two kinds of address, each with a table of its own. */
  datatype Kind = Temporary | Assigned

  /** The rows written so far to the temporary table and to the target table. */
  datatype NdpRows = NdpRows(temporary: seq<NdpEntry>, target: seq<NdpEntry>) {
    function Of(kind: Kind): seq<NdpEntry> { if kind.Temporary? then temporary else target }

    function AddTemporary(row: NdpEntry): NdpRows { this.(temporary := temporary + [row]) }
    function AddAssigned(row: NdpEntry): NdpRows { this.(target := target + [row]) }
  }

  const NO_ROWS := NdpRows([], [])

  /** Which tables the physical device has already filled; the VLAN pass writes to the others only. */
  datatype Shut = Shut(temporary: bool, target: bool) {
    predicate Of(kind: Kind) { if kind.Temporary? then temporary else target }
  }

  const NONE_SHUT := Shut(false, false)

  /** The rows written once the addresses of `s` from index `k` on have been walked. */
  function Scan(s: Source, k: nat, rows: NdpRows, shut: Shut, capacity: nat): NdpRows
    requires k <= |s.device.ipv6|
    decreases |s.device.ipv6| - k
  {
    if k == |s.device.ipv6| then rows
    else
      var a := s.device.ipv6[k];
      if a.temporary && !shut.temporary then
        var next := rows.AddTemporary(s.NdpRow(a));
        if capacity <= |next.temporary| then next else Scan(s, k + 1, next, shut, capacity)
      else if a.permanent && !shut.target then
        var next := rows.AddAssigned(s.NdpRow(a));
        if capacity <= |next.target| then next else Scan(s, k + 1, next, shut, capacity)
      else Scan(s, k + 1, rows, shut, capacity)
  }

  lemma ScanNothing(s: Source, rows: NdpRows, shut: Shut, capacity: nat)
    requires |s.device.ipv6| == 0
    ensures Scan(s, 0, rows, shut, capacity) == rows
  {
  }

  function PhysicalRows(netdev: NetDevice, capacity: nat): NdpRows {
    Scan(Source(netdev, false), 0, NO_ROWS, NONE_SHUT, capacity)
  }

  function ShutByPhysical(netdev: NetDevice, capacity: nat): Shut {
    var rows := PhysicalRows(netdev, capacity);
    Shut(capacity <= |rows.temporary|, capacity <= |rows.target|)
  }

  /** The rows written after the physical device and the first `n` entries of the device list. */
  function NdpWrites(netdev: NetDevice, devices: seq<NetDevice>, n: nat, capacity: nat): NdpRows
    requires n <= |devices|
  {
    Collect(netdev, devices, n, ShutByPhysical(netdev, capacity), capacity)
  }

  /** The same when the VLAN pass takes the tables in `shut` for filled. */
  function Collect(netdev: NetDevice, devices: seq<NetDevice>, n: nat, shut: Shut, capacity: nat): NdpRows
    requires n <= |devices|
  {
    if n == 0 then PhysicalRows(netdev, capacity)
    else Scan(Visited(netdev, devices, n), 0, Collect(netdev, devices, n - 1, shut, capacity), shut, capacity)
  }

  /** The temporary addresses of `s` from index `k` on, each with the MAC, VLAN flag and VID of `s`. */
  function TemporaryFrom(s: Source, k: nat): seq<NdpEntry>
    requires k <= |s.device.ipv6|
    decreases |s.device.ipv6| - k
  {
    if k == |s.device.ipv6| then []
    else (if s.device.ipv6[k].temporary then [s.NdpRow(s.device.ipv6[k])] else []) + TemporaryFrom(s, k + 1)
  }

  /** The addresses of `s` from index `k` on that are permanent and not temporary. */
  function AssignedFrom(s: Source, k: nat): seq<NdpEntry>
    requires k <= |s.device.ipv6|
    decreases |s.device.ipv6| - k
  {
    if k == |s.device.ipv6| then []
    else (if IsAssigned(s.device.ipv6[k]) then [s.NdpRow(s.device.ipv6[k])] else []) + AssignedFrom(s, k + 1)
  }

  predicate IsAssigned(a: Ipv6Assignment) { a.permanent && !a.temporary }

  /** The partition of all addresses of the first `n` visited devices, in order. */
  function AllRows(netdev: NetDevice, devices: seq<NetDevice>, n: nat): NdpRows
    requires n <= |devices| + 1
  {
    if n == 0 then NO_ROWS
    else
      var before, s := AllRows(netdev, devices, n - 1), Visited(netdev, devices, n - 1);
      NdpRows(before.temporary + TemporaryFrom(s, 0), before.target + AssignedFrom(s, 0))
  }

  /**
    Whether the address at index `j` is filed into a table that is full afterwards, when `t` temporary
    and `p` assigned addresses have been filed up to the end of device `s`.
   */
  predicate FillsTable(s: Source, j: nat, t: nat, p: nat, capacity: nat)
    requires j < |s.device.ipv6|
  {
    var a := s.device.ipv6[j];
    || (a.temporary && capacity <= t - |TemporaryFrom(s, j + 1)|)
    || (IsAssigned(a) && capacity <= p - |AssignedFrom(s, j + 1)|)
  }

  predicate NothingFrom(s: Source, k: nat)
    requires k <= |s.device.ipv6|
  {
    |TemporaryFrom(s, k)| == 0 && |AssignedFrom(s, k)| == 0
  }

  /** No table becomes full in `s` while the address list still holds an address to be filed. */
  ghost predicate KeepsAll(s: Source, k: nat, t: nat, p: nat, capacity: nat)
    requires k <= |s.device.ipv6|
  {
    forall j | k <= j < |s.device.ipv6| && FillsTable(s, j, t, p, capacity) :: NothingFrom(s, j + 1)
  }

  lemma KeepsAllUnfold(s: Source, k: nat, t: nat, p: nat, capacity: nat)
    requires k < |s.device.ipv6|
    ensures KeepsAll(s, k, t, p, capacity) <==>
            && KeepsAll(s, k + 1, t, p, capacity)
            && (FillsTable(s, k, t, p, capacity) ==> NothingFrom(s, k + 1))
  {
  }

  lemma {:induction false} NothingFromIsStable(s: Source, k: nat, j: nat)
    requires k <= j <= |s.device.ipv6| && NothingFrom(s, k)
    ensures NothingFrom(s, j)
    decreases j - k
  {
    if k != j {
      NothingFromIsStable(s, k + 1, j);
    }
  }

  lemma KeepsAllOfNothing(s: Source, k: nat, t: nat, p: nat, capacity: nat)
    requires k <= |s.device.ipv6| && NothingFrom(s, k)
    ensures KeepsAll(s, k, t, p, capacity)
  {
    forall j | k <= j < |s.device.ipv6| && FillsTable(s, j, t, p, capacity)
      ensures NothingFrom(s, j + 1)
    {
      NothingFromIsStable(s, k, j + 1);
    }
  }

  /** `rows` followed by everything that is to be filed from `s`, from index `k` on. */
  function Everything(s: Source, k: nat, rows: NdpRows): NdpRows
    requires k <= |s.device.ipv6|
  {
    NdpRows(rows.temporary + TemporaryFrom(s, k), rows.target + AssignedFrom(s, k))
  }

  /** The rows after the address at index `k` has been filed. */
  function File(s: Source, k: nat, rows: NdpRows): NdpRows
    requires k < |s.device.ipv6|
  {
    var a := s.device.ipv6[k];
    if a.temporary then rows.AddTemporary(s.NdpRow(a))
    else if a.permanent then rows.AddAssigned(s.NdpRow(a))
    else rows
  }

  lemma EverythingStep(s: Source, k: nat, rows: NdpRows)
    requires k < |s.device.ipv6|
    ensures Everything(s, k + 1, File(s, k, rows)) == Everything(s, k, rows)
  {
    var next := File(s, k, rows);
    assert next.temporary + TemporaryFrom(s, k + 1) == rows.temporary + TemporaryFrom(s, k);
    assert next.target + AssignedFrom(s, k + 1) == rows.target + AssignedFrom(s, k);
  }

  /** Walking the rest of a device's addresses after `File`, or stopping there. */
  lemma ScanStep(s: Source, k: nat, rows: NdpRows, capacity: nat)
    requires k < |s.device.ipv6|
    ensures var all := Everything(s, k, rows);
            Scan(s, k, rows, NONE_SHUT, capacity) ==
            if FillsTable(s, k, |all.temporary|, |all.target|, capacity) then File(s, k, rows)
            else Scan(s, k + 1, File(s, k, rows), NONE_SHUT, capacity)
  {
  }

  /** No address of `d` is both temporary and permanent. */
  predicate HasExclusiveFlags(d: NetDevice) {
    forall j | 0 <= j < |d.ipv6| :: !(d.ipv6[j].temporary && d.ipv6[j].permanent)
  }

  predicate HaveExclusiveFlags(netdev: NetDevice, devices: seq<NetDevice>) {
    HasExclusiveFlags(netdev) && forall i | 0 <= i < |devices| :: HasExclusiveFlags(devices[i])
  }

  /** `r` is `before` and then a prefix of `more`. */
  predicate AddsPrefix(before: seq<NdpEntry>, r: seq<NdpEntry>, more: seq<NdpEntry>) {
    before <= r <= before + more
  }

  lemma AddsNothing(before: seq<NdpEntry>, more: seq<NdpEntry>)
    ensures AddsPrefix(before, before, more)
  {
  }

  lemma AddsPrefixStep(before: seq<NdpEntry>, row: NdpEntry, r: seq<NdpEntry>, more: seq<NdpEntry>)
    ensures AddsPrefix(before, before, more)
    ensures AddsPrefix(before, before + [row], [row] + more)
    ensures AddsPrefix(before + [row], r, more) ==> AddsPrefix(before, r, [row] + more)
  {
    Associative(before, [row], more);
    assert AddsPrefix(before + [row], r, more) ==> before + [row] <= r;
  }

  lemma {:induction false} ScanAddsTemporary(s: Source, k: nat, rows: NdpRows, shut: Shut, capacity: nat)
    requires k <= |s.device.ipv6|
    ensures var r := Scan(s, k, rows, shut, capacity);
            if shut.temporary then r.temporary == rows.temporary
            else AddsPrefix(rows.temporary, r.temporary, TemporaryFrom(s, k))
    decreases |s.device.ipv6| - k
  {
    if k != |s.device.ipv6| {
      hide AddsPrefix;
      var row, r := s.NdpRow(s.device.ipv6[k]), Scan(s, k, rows, shut, capacity);
      AddsPrefixStep(rows.temporary, row, r.temporary, TemporaryFrom(s, k + 1));
      AddsPrefixStep(rows.temporary, row, r.temporary, TemporaryFrom(s, k));
      ScanAddsTemporary(s, k + 1, rows.AddTemporary(row), shut, capacity);
      ScanAddsTemporary(s, k + 1, rows.AddAssigned(row), shut, capacity);
      ScanAddsTemporary(s, k + 1, rows, shut, capacity);
    }
  }

  lemma {:induction false} ScanAddsAssigned(s: Source, k: nat, rows: NdpRows, shut: Shut, capacity: nat)
    requires k <= |s.device.ipv6|
    ensures var r := Scan(s, k, rows, shut, capacity);
            && |rows.target| <= |r.target|
            && (shut.target ==> r.target == rows.target)
            && (!shut.target && (!shut.temporary || HasExclusiveFlags(s.device)) ==>
                  AddsPrefix(rows.target, r.target, AssignedFrom(s, k)))
    decreases |s.device.ipv6| - k
  {
    hide AddsPrefix;
    AddsNothing(rows.target, AssignedFrom(s, k));
    if k != |s.device.ipv6| {
      var row, r := s.NdpRow(s.device.ipv6[k]), Scan(s, k, rows, shut, capacity);
      assert HasExclusiveFlags(s.device) ==> !(s.device.ipv6[k].temporary && s.device.ipv6[k].permanent);
      hide HasExclusiveFlags;
      AddsPrefixStep(rows.target, row, r.target, AssignedFrom(s, k + 1));
      AddsPrefixStep(rows.target, row, r.target, AssignedFrom(s, k));
      var a := s.device.ipv6[k];
      assert !IsAssigned(a) ==> AssignedFrom(s, k) == AssignedFrom(s, k + 1);
      if a.temporary && !shut.temporary {
        ScanAddsAssigned(s, k + 1, rows.AddTemporary(row), shut, capacity);
      } else if a.permanent && !shut.target {
        ScanAddsAssigned(s, k + 1, rows.AddAssigned(row), shut, capacity);
      } else {
        ScanAddsAssigned(s, k + 1, rows, shut, capacity);
      }
    }
  }

  /**
    What a walk adds to each table is a prefix of the rows of that kind. For the target table this needs that
    the temporary table takes the addresses that carry both flags.
   */
  lemma ScanAddsPrefixes(s: Source, rows: NdpRows, shut: Shut, capacity: nat)
    ensures var r := Scan(s, 0, rows, shut, capacity);
            && |rows.temporary| <= |r.temporary| && |rows.target| <= |r.target|
            && AddsPrefix(rows.temporary, r.temporary, TemporaryFrom(s, 0))
            && (!shut.temporary || HasExclusiveFlags(s.device) ==>
                  AddsPrefix(rows.target, r.target, AssignedFrom(s, 0)))
  {
    hide Scan;
    ScanAddsTemporary(s, 0, rows, shut, capacity);
    ScanAddsAssigned(s, 0, rows, shut, capacity);
  }

  /** Walking a device files everything exactly when no table fills up too early. */
  lemma {:induction false} ScanIsCompleteIff(s: Source, k: nat, rows: NdpRows, capacity: nat)
    requires k <= |s.device.ipv6|
    ensures var r, all := Scan(s, k, rows, NONE_SHUT, capacity), Everything(s, k, rows);
            r == all <==> KeepsAll(s, k, |all.temporary|, |all.target|, capacity)
    decreases |s.device.ipv6| - k
  {
    if k != |s.device.ipv6| {
      var all, next := Everything(s, k, rows), File(s, k, rows);
      var t, p := |all.temporary|, |all.target|;
      EverythingStep(s, k, rows);
      ScanStep(s, k, rows, capacity);
      KeepsAllUnfold(s, k, t, p, capacity);
      if FillsTable(s, k, t, p, capacity) {
        if NothingFrom(s, k + 1) {
          KeepsAllOfNothing(s, k + 1, t, p, capacity);
        }
      } else {
        ScanIsCompleteIff(s, k + 1, next, capacity);
      }
    }
  }

  /** Whether no table fills up too early in the `i`-th visited device. */
  ghost predicate DeviceKeepsAll(netdev: NetDevice, devices: seq<NetDevice>, i: nat, capacity: nat)
    requires i <= |devices|
  {
    var all := AllRows(netdev, devices, i + 1);
    KeepsAll(Visited(netdev, devices, i), 0, |all.temporary|, |all.target|, capacity)
  }

  /** The rows written are some of the rows there are, in the same order. */
  lemma {:induction false} CollectsSubsequences(
    netdev: NetDevice, devices: seq<NetDevice>, n: nat, shut: Shut, capacity: nat)
    requires n <= |devices|
    ensures var r, all := Collect(netdev, devices, n, shut, capacity), AllRows(netdev, devices, n + 1);
            && Subsequence(r.temporary, all.temporary)
            && (!shut.temporary || HaveExclusiveFlags(netdev, devices) ==> Subsequence(r.target, all.target))
  {
    hide Scan, Subsequence, TemporaryFrom, AssignedFrom;
    var s, before := Visited(netdev, devices, n), AllRows(netdev, devices, n);
    var r := Collect(netdev, devices, n, shut, capacity);
    if n == 0 {
      ScanAddsPrefixes(s, NO_ROWS, NONE_SHUT, capacity);
      SubsequenceWithPrefix([], [], r.temporary, TemporaryFrom(s, 0));
      SubsequenceWithPrefix([], [], r.target, AssignedFrom(s, 0));
    } else {
      CollectsSubsequences(netdev, devices, n - 1, shut, capacity);
      var earlier := Collect(netdev, devices, n - 1, shut, capacity);
      ScanAddsPrefixes(s, earlier, shut, capacity);
      SubsequenceWithPrefix(earlier.temporary, before.temporary, r.temporary, TemporaryFrom(s, 0));
      if !shut.temporary || HaveExclusiveFlags(netdev, devices) {
        assert HasExclusiveFlags(s.device) || !shut.temporary;
        SubsequenceWithPrefix(earlier.target, before.target, r.target, AssignedFrom(s, 0));
      }
    }
  }

  /** A pass that ends with everything had everything before the last device. */
  lemma CompleteBefore(before: NdpRows, all: NdpRows, s: Source, r: NdpRows)
    requires Subsequence(before.temporary, all.temporary) && Subsequence(before.target, all.target)
    requires |r.temporary| <= |before.temporary| + |TemporaryFrom(s, 0)|
    requires |r.target| <= |before.target| + |AssignedFrom(s, 0)|
    ensures r == Everything(s, 0, all) ==> before == all
  {
    SubsequenceLength(before.temporary, all.temporary);
    SubsequenceLength(before.target, all.target);
    hide Subsequence, TemporaryFrom, AssignedFrom;
  }

  lemma {:induction false} CollectsEverythingIff(netdev: NetDevice, devices: seq<NetDevice>, n: nat, capacity: nat)
    requires n <= |devices|
    ensures Collect(netdev, devices, n, NONE_SHUT, capacity) == AllRows(netdev, devices, n + 1) <==>
            forall i | 0 <= i < n + 1 :: DeviceKeepsAll(netdev, devices, i, capacity)
  {
    hide Scan, Subsequence, KeepsAll, TemporaryFrom, AssignedFrom;
    var s, all := Visited(netdev, devices, n), AllRows(netdev, devices, n);
    var r := Collect(netdev, devices, n, NONE_SHUT, capacity);
    assert AllRows(netdev, devices, n + 1) == Everything(s, 0, all);
    assert (forall i | 0 <= i < n + 1 :: DeviceKeepsAll(netdev, devices, i, capacity)) <==>
      && (forall i | 0 <= i < n :: DeviceKeepsAll(netdev, devices, i, capacity))
      && DeviceKeepsAll(netdev, devices, n, capacity);
    if n == 0 {
      ScanIsCompleteIff(s, 0, NO_ROWS, capacity);
    } else {
      CollectsEverythingIff(netdev, devices, n - 1, capacity);
      var before := Collect(netdev, devices, n - 1, NONE_SHUT, capacity);
      ScanIsCompleteIff(s, 0, before, capacity);
      ScanAddsPrefixes(s, before, NONE_SHUT, capacity);
      CollectsSubsequences(netdev, devices, n - 1, NONE_SHUT, capacity);
      CompleteBefore(before, all, s, r);
    }
  }

  /** A table that the physical device has shut makes no difference when nothing is left to go there. */
  lemma {:induction false} ScanIgnoresShut(s: Source, k: nat, rows: NdpRows, shut: Shut, capacity: nat)
    requires k <= |s.device.ipv6|
    requires shut.temporary ==> |TemporaryFrom(s, k)| == 0
    requires shut.target ==> |AssignedFrom(s, k)| == 0
    ensures Scan(s, k, rows, shut, capacity) == Scan(s, k, rows, NONE_SHUT, capacity)
    decreases |s.device.ipv6| - k
  {
    if k != |s.device.ipv6| {
      ScanIgnoresShut(s, k + 1, File(s, k, rows), shut, capacity);
    }
  }

  /** Whether every address has a slot of its own. */
  predicate AllFit(netdev: NetDevice, devices: seq<NetDevice>, capacity: nat) {
    var all := AllRows(netdev, devices, |devices| + 1);
    |all.temporary| <= capacity && |all.target| <= capacity
  }

  lemma {:induction false} AllRowsGrow(netdev: NetDevice, devices: seq<NetDevice>, m: nat, n: nat)
    requires m <= n <= |devices| + 1
    ensures |AllRows(netdev, devices, m).temporary| <= |AllRows(netdev, devices, n).temporary|
    ensures |AllRows(netdev, devices, m).target| <= |AllRows(netdev, devices, n).target|
  {
    if m != n {
      AllRowsGrow(netdev, devices, m, n - 1);
    }
  }

  /** A table shut by the physical device has no row left to receive when all rows fit. */
  lemma NothingForShutTables(netdev: NetDevice, devices: seq<NetDevice>, i: nat, capacity: nat)
    requires 1 <= i <= |devices| && AllFit(netdev, devices, capacity)
    ensures var shut, s := ShutByPhysical(netdev, capacity), Visited(netdev, devices, i);
            && (shut.temporary ==> |TemporaryFrom(s, 0)| == 0)
            && (shut.target ==> |AssignedFrom(s, 0)| == 0)
  {
    ScanAddsPrefixes(Source(netdev, false), NO_ROWS, NONE_SHUT, capacity);
    AllRowsGrow(netdev, devices, 1, i);
    AllRowsGrow(netdev, devices, i + 1, |devices| + 1);
  }

  lemma {:induction false} ShutTablesDoNotMatter(netdev: NetDevice, devices: seq<NetDevice>, n: nat, capacity: nat)
    requires n <= |devices| && AllFit(netdev, devices, capacity)
    ensures NdpWrites(netdev, devices, n, capacity) == Collect(netdev, devices, n, NONE_SHUT, capacity)
  {
    if n != 0 {
      ShutTablesDoNotMatter(netdev, devices, n - 1, capacity);
      NothingForShutTables(netdev, devices, n, capacity);
      ScanIgnoresShut(Visited(netdev, devices, n), 0, NdpWrites(netdev, devices, n - 1, capacity),
                      ShutByPhysical(netdev, capacity), capacity);
    }
  }

  /** `table` shows exactly the rows `all`, and `size` is their number. */
  predicate Shows(table: seq<NdpEntry>, size: nat, all: seq<NdpEntry>) {
    size == |all| && size <= |table| && table[..size] == all
  }

  /**
    The two tables show the order-preserving partition of all addresses exactly when all of them fit
    and no device still has an address to be filed after one of its addresses filled a table.
   */
  lemma CompleteIff(netdev: NetDevice, devices: seq<NetDevice>, stale: NdpRows)
    requires 1 <= |stale.temporary| == |stale.target|
    ensures var capacity := |stale.target|;
            var rows := NdpWrites(netdev, devices, |devices|, capacity);
            var all := AllRows(netdev, devices, |devices| + 1);
            (&& Shows(Overlay(stale.temporary, rows.temporary), |rows.temporary|, all.temporary)
             && Shows(Overlay(stale.target, rows.target), |rows.target|, all.target))
            <==>
            (&& AllFit(netdev, devices, capacity)
             && forall i | 0 <= i < |devices| + 1 :: DeviceKeepsAll(netdev, devices, i, capacity))
  {
    var capacity := |stale.target|;
    var rows := NdpWrites(netdev, devices, |devices|, capacity);
    if AllFit(netdev, devices, capacity) {
      ShutTablesDoNotMatter(netdev, devices, |devices|, capacity);
      CollectsEverythingIff(netdev, devices, |devices|, capacity);
      if |rows.temporary| <= capacity {
        OverlayIsLossless(stale.temporary, rows.temporary);
      }
      if |rows.target| <= capacity {
        OverlayIsLossless(stale.target, rows.target);
      }
    }
  }

  /** When both totals stay below the capacity, nothing is lost, duplicated or cross-filed. */
  lemma CompleteBelowCapacity(netdev: NetDevice, devices: seq<NetDevice>, stale: NdpRows)
    requires 1 <= |stale.temporary| == |stale.target|
    requires var all := AllRows(netdev, devices, |devices| + 1);
             |all.temporary| < |stale.target| && |all.target| < |stale.target|
    ensures var rows := NdpWrites(netdev, devices, |devices|, |stale.target|);
            var all := AllRows(netdev, devices, |devices| + 1);
            && Shows(Overlay(stale.temporary, rows.temporary), |rows.temporary|, all.temporary)
            && Shows(Overlay(stale.target, rows.target), |rows.target|, all.target)
  {
    forall i | 0 <= i < |devices| + 1
      ensures DeviceKeepsAll(netdev, devices, i, |stale.target|)
    {
      AllRowsGrow(netdev, devices, i + 1, |devices| + 1);
    }
    CompleteIff(netdev, devices, stale);
  }

  /** A permanent address that follows the temporary address which fills its table is lost. */
  lemma FullTableLosesAddressesOfTheOtherKind(a: Ipv6Address, b: Ipv6Address)
    ensures var addresses := [Ipv6Assignment(a, true, false), Ipv6Assignment(b, false, true)];
            var netdev := NetDevice(0, false, 0, true, [0, 0, 0, 0, 0, 0], 0, [], addresses);
            && AllFit(netdev, [], 1)
            && |AllRows(netdev, [], 1).target| == 1
            && NdpWrites(netdev, [], 0, 1).target == []
  {
    var addresses := [Ipv6Assignment(a, true, false), Ipv6Assignment(b, false, true)];
    var netdev := NetDevice(0, false, 0, true, [0, 0, 0, 0, 0, 0], 0, [], addresses);
    var s := Source(netdev, false);
    assert TemporaryFrom(s, 2) == [] && AssignedFrom(s, 2) == [];
    assert TemporaryFrom(s, 1) == [] && AssignedFrom(s, 1) == [s.NdpRow(addresses[1])];
    assert AllRows(netdev, [], 0) == NO_ROWS;
  }

  /** The same with the kinds exchanged: a temporary address behind the permanent one that fills the target table. */
  lemma FullTargetLosesTemporaryAddresses(a: Ipv6Address, b: Ipv6Address)
    ensures var addresses := [Ipv6Assignment(a, false, true), Ipv6Assignment(b, true, false)];
            var netdev := NetDevice(0, false, 0, true, [0, 0, 0, 0, 0, 0], 0, [], addresses);
            && |AllRows(netdev, [], 1).temporary| == 1
            && NdpWrites(netdev, [], 0, 1) == NdpRows([], [NdpEntry(a, [0, 0, 0, 0, 0, 0], false, 0)])
  {
    var addresses := [Ipv6Assignment(a, false, true), Ipv6Assignment(b, true, false)];
    var netdev := NetDevice(0, false, 0, true, [0, 0, 0, 0, 0, 0], 0, [], addresses);
    var s := Source(netdev, false);
    assert TemporaryFrom(s, 2) == [];
    assert TemporaryFrom(s, 1) == [s.NdpRow(addresses[1])];
    assert AllRows(netdev, [], 0) == NO_ROWS;
  }

  // Which rows there are, in terms of the devices and their flags.

  /** `d` has an address of the wanted kind that makes `row`. */
  ghost predicate Offers(d: NetDevice, asVlan: bool, temporary: bool, row: NdpEntry) {
    exists j | 0 <= j < |d.ipv6| ::
      && (if temporary then d.ipv6[j].temporary else d.ipv6[j].permanent && !d.ipv6[j].temporary)
      && row == NdpEntry(d.ipv6[j].address, d.mac, asVlan, if asVlan then d.vid else 0)
  }

  /** `row` comes from the physical device or from an active VLAN device on top of it. */
  ghost predicate IsRowFor(netdev: NetDevice, devices: seq<NetDevice>, temporary: bool, row: NdpEntry) {
    || Offers(netdev, false, temporary, row)
    || exists i | 0 <= i < |devices| ::
         && devices[i].isVlan && devices[i].realDev == netdev.ifindex && devices[i].isUp
         && Offers(devices[i], true, temporary, row)
  }

  ghost predicate OffersFrom(s: Source, k: nat, temporary: bool, row: NdpEntry) {
    exists j | k <= j < |s.device.ipv6| ::
      && (if temporary then s.device.ipv6[j].temporary else IsAssigned(s.device.ipv6[j]))
      && row == s.NdpRow(s.device.ipv6[j])
  }

  lemma {:induction false} FiledRows(s: Source, k: nat, row: NdpEntry)
    requires k <= |s.device.ipv6|
    ensures row in TemporaryFrom(s, k) <==> OffersFrom(s, k, true, row)
    ensures row in AssignedFrom(s, k) <==> OffersFrom(s, k, false, row)
    decreases |s.device.ipv6| - k
  {
    if k != |s.device.ipv6| {
      FiledRows(s, k + 1, row);
      OffersUnfold(s, k, true, row);
      OffersUnfold(s, k, false, row);
      hide OffersFrom;
    }
  }

  lemma OffersUnfold(s: Source, k: nat, temporary: bool, row: NdpEntry)
    requires k < |s.device.ipv6|
    ensures var a := s.device.ipv6[k];
            OffersFrom(s, k, temporary, row) <==>
            || ((if temporary then a.temporary else IsAssigned(a)) && row == s.NdpRow(a))
            || OffersFrom(s, k + 1, temporary, row)
  {
  }

  lemma {:induction false} RowsOfVisited(netdev: NetDevice, devices: seq<NetDevice>, n: nat, row: NdpEntry)
    requires n <= |devices| + 1
    ensures var all := AllRows(netdev, devices, n);
            && (row in all.temporary <==> exists i | 0 <= i < n :: OffersFrom(Visited(netdev, devices, i), 0, true, row))
            && (row in all.target <==> exists i | 0 <= i < n :: OffersFrom(Visited(netdev, devices, i), 0, false, row))
  {
    if n != 0 {
      RowsOfVisited(netdev, devices, n - 1, row);
      FiledRows(Visited(netdev, devices, n - 1), 0, row);
      hide OffersFrom, Visited;
    }
  }

  lemma OffersOfVisited(netdev: NetDevice, devices: seq<NetDevice>, i: nat, temporary: bool, row: NdpEntry)
    requires i <= |devices|
    ensures OffersFrom(Visited(netdev, devices, i), 0, temporary, row) <==>
            if i == 0 then Offers(netdev, false, temporary, row)
            else
              var d := devices[i - 1];
              d.isVlan && d.realDev == netdev.ifindex && d.isUp && Offers(d, true, temporary, row)
  {
  }

  /**
    A row is to be collected for the table of its kind exactly when the physical device or an active VLAN
    device on top of it has the address with that flag; it carries the MAC and the VLAN data of its device.
   */
  lemma RowsAreFromTheirDevices(netdev: NetDevice, devices: seq<NetDevice>, row: NdpEntry)
    ensures var all := AllRows(netdev, devices, |devices| + 1);
            && (row in all.temporary <==> IsRowFor(netdev, devices, true, row))
            && (row in all.target <==> IsRowFor(netdev, devices, false, row))
  {
    RowsOfVisited(netdev, devices, |devices| + 1, row);
    VisitedOffersIff(netdev, devices, true, row);
    VisitedOffersIff(netdev, devices, false, row);
  }

  lemma VisitedOffersIff(netdev: NetDevice, devices: seq<NetDevice>, temporary: bool, row: NdpEntry)
    ensures (exists i | 0 <= i < |devices| + 1 :: OffersFrom(Visited(netdev, devices, i), 0, temporary, row)) <==>
            IsRowFor(netdev, devices, temporary, row)
  {
    forall i | 0 <= i < |devices| + 1
      ensures OffersFrom(Visited(netdev, devices, i), 0, temporary, row) <==>
              if i == 0 then Offers(netdev, false, temporary, row)
              else
                && devices[i - 1].isVlan && devices[i - 1].realDev == netdev.ifindex && devices[i - 1].isUp
                && Offers(devices[i - 1], true, temporary, row)
    {
      OffersOfVisited(netdev, devices, i, temporary, row);
    }
    hide Offers, OffersFrom, Visited;
    if exists i | 0 <= i < |devices| ::
        && devices[i].isVlan && devices[i].realDev == netdev.ifindex && devices[i].isUp
        && Offers(devices[i], true, temporary, row) {
      var i :| 0 <= i < |devices|
        && devices[i].isVlan && devices[i].realDev == netdev.ifindex && devices[i].isUp
        && Offers(devices[i], true, temporary, row);
      assert OffersFrom(Visited(netdev, devices, i + 1), 0, temporary, row);
    }
    if Offers(netdev, false, temporary, row) {
      assert OffersFrom(Visited(netdev, devices, 0), 0, temporary, row);
    }
  }
}
