/**
  A table of fixed capacity that is filled from the front and whose last slot is
  overwritten by every write that comes after the table has become full.
 */
module BoundedTable {
  import opened Sequences

  /** The slot that the next write goes to after `count` writes. */
  function NextSlot(count: nat, capacity: nat): (slot: nat)
    requires 1 <= capacity
    ensures slot < capacity
  {
    Min(count, capacity - 1)
  }

  /** The contents of `table` after all of `writes`. */
  function Overlay<T>(table: seq<T>, writes: seq<T>): (r: seq<T>)
    requires 1 <= |table|
    ensures |r| == |table|
  {
    if |writes| < |table| then writes + table[|writes|..]
    else writes[..|table| - 1] + [writes[|writes| - 1]]
  }

  /** Storing one more row at the next slot is the same as one more write. */
  lemma OverlayStep<T>(table: seq<T>, writes: seq<T>, row: T)
    requires 1 <= |table|
    ensures Overlay(table, writes)[NextSlot(|writes|, |table|) := row] == Overlay(table, writes + [row])
  {
  }

  /** In a full table the last slot shows the latest write. */
  lemma OverlayLast<T>(table: seq<T>, writes: seq<T>, row: T)
    requires 1 <= |table| <= |writes| + 1
    ensures Overlay(table, writes + [row])[|table| - 1] == row
  {
  }

  /** The live part of the table does not depend on what the table held before. */
  lemma OverlayForgets<T>(table: seq<T>, table': seq<T>, writes: seq<T>)
    requires 1 <= |table| == |table'|
    ensures var live := Min(|writes|, |table|);
            Overlay(table, writes)[..live] == Overlay(table', writes)[..live]
  {
  }

  /** A table shows every write, in order, exactly when no more rows were written than it has slots. */
  lemma OverlayIsLossless<T>(table: seq<T>, writes: seq<T>)
    requires 1 <= |table|
    ensures |writes| <= |table| ==> Overlay(table, writes)[..|writes|] == writes
    ensures Overlay(table, writes)[..Min(|writes|, |table|)] == writes ==> |writes| <= |table|
  {
  }
}
