/**
  A pass that writes the elements of several lists to one bounded table, what it writes in closed form,
  and how the table and its size look afterwards.
 */
module BoundedPass {
  import opened Sequences
  import opened BoundedTable

  /**
    The rows written by a pass over the first `n` of `lists` into a table with `room` free slots. A
    list is left as soon as a write finds the table full, but the pass then goes on to the next
    list, so that every non-empty list contributes at least its first element.
   */
  function Accepted<T>(lists: seq<seq<T>>, n: nat, room: nat): seq<T>
    requires n <= |lists|
  {
    if n == 0 then []
    else
      var before := Accepted(lists, n - 1, room);
      before + FirstRows(lists[n - 1], room - |before|)
  }

  /** The rows of one list that are written while `room` slots are free: all that fit, but at least one. */
  function FirstRows<T>(rows: seq<T>, room: int): seq<T> {
    Take(rows, if 1 <= room then room else 1)
  }

  /** Every row written for `first`, which ends the pass when it fills the table, and then for `lists`. */
  function Writes<T>(first: seq<T>, lists: seq<seq<T>>, capacity: nat): seq<T> {
    WritesUpTo(first, lists, |lists|, capacity)
  }

  /** The rows written up to the first `n` lists. */
  function WritesUpTo<T>(first: seq<T>, lists: seq<seq<T>>, n: nat, capacity: nat): seq<T>
    requires n <= |lists|
  {
    if capacity <= |first| then first[..capacity]
    else first + Accepted(lists, n, capacity - |first|)
  }

  lemma WritesUpToNothing<T>(first: seq<T>, lists: seq<seq<T>>, capacity: nat)
    ensures WritesUpTo(first, lists, 0, capacity) == Take(first, capacity)
  {
  }

  lemma WritesUpToNext<T>(first: seq<T>, lists: seq<seq<T>>, n: nat, capacity: nat)
    requires n < |lists|
    ensures var before := WritesUpTo(first, lists, n, capacity);
            WritesUpTo(first, lists, n + 1, capacity) ==
            if capacity <= |first| then before else before + FirstRows(lists[n], capacity - |before|)
  {
    if |first| < capacity {
      AcceptedUnfold(first, lists, n, capacity);
    }
  }

  lemma AcceptedNothingYet<T>(first: seq<T>, lists: seq<seq<T>>, room: nat)
    ensures first + Accepted(lists, 0, room) == first
  {
  }

  /** What the list at index `d` adds after the lists before it. */
  lemma AcceptedUnfold<T>(first: seq<T>, lists: seq<seq<T>>, d: nat, capacity: nat)
    requires d < |lists| && |first| < capacity
    ensures var before := first + Accepted(lists, d, capacity - |first|);
            first + Accepted(lists, d + 1, capacity - |first|) ==
            before + FirstRows(lists[d], capacity - |before|)
    ensures |lists[d]| == 0 ==> Accepted(lists, d + 1, capacity - |first|) == Accepted(lists, d, capacity - |first|)
  {
    var accepted := Accepted(lists, d, capacity - |first|);
    Associative(first, accepted, FirstRows(lists[d], capacity - |first| - |accepted|));
  }

  /** The index of the list whose elements bring the running total up to `room`. */
  function FillIndex<T>(lists: seq<seq<T>>, n: nat, room: nat): (k: nat)
    requires n <= |lists| && 1 <= room <= |Flatten(lists, n)|
    ensures k < n
  {
    if room <= |Flatten(lists, n - 1)| then FillIndex(lists, n - 1, room) else n - 1
  }

  lemma {:induction false} FillIndexIsWhereTheTotalReachesRoom<T>(lists: seq<seq<T>>, n: nat, room: nat)
    requires n <= |lists| && 1 <= room <= |Flatten(lists, n)|
    ensures var k := FillIndex(lists, n, room);
            |Flatten(lists, k)| < room <= |Flatten(lists, k + 1)|
  {
    if room <= |Flatten(lists, n - 1)| {
      FillIndexIsWhereTheTotalReachesRoom(lists, n - 1, room);
    }
  }

  /** The first element of every non-empty list in `lists[lo..hi]`. */
  function Firsts<T>(lists: seq<seq<T>>, lo: nat, hi: nat): (r: seq<T>)
    requires lo <= hi <= |lists|
    ensures |r| <= hi - lo
    decreases hi
  {
    if lo == hi then [] else Firsts(lists, lo, hi - 1) + Take(lists[hi - 1], 1)
  }

  /** The first rows of the non-empty lists that come after the one that fills `room` slots. */
  function Later<T>(lists: seq<seq<T>>, n: nat, room: int): (r: seq<T>)
    requires n <= |lists|
    ensures |r| <= n
  {
    if 1 <= room <= |Flatten(lists, n)| then Firsts(lists, FillIndex(lists, n, room) + 1, n) else []
  }

  /** The pass keeps everything that fits, and afterwards the first element of each later list. */
  lemma {:induction false} AcceptedClosedForm<T>(lists: seq<seq<T>>, n: nat, room: nat)
    requires n <= |lists| && 1 <= room
    ensures Accepted(lists, n, room) == Take(Flatten(lists, n), room) + Later(lists, n, room)
  {
    if n != 0 {
      AcceptedClosedForm(lists, n - 1, room);
      LaterStep(lists, n, room);
      AcceptedStep(Flatten(lists, n - 1), lists[n - 1], Later(lists, n - 1, room), room);
    }
  }

  /** One more list, after `before` was collected and `later` overwrote the last slot. */
  lemma AcceptedStep<T>(before: seq<T>, last: seq<T>, later: seq<T>, room: nat)
    requires 1 <= room && (|before| < room ==> later == [])
    ensures var accepted := Take(before, room) + later;
            accepted + FirstRows(last, room - |accepted|) ==
            Take(before + last, room) + if room <= |before| then later + Take(last, 1) else []
  {
    TakeOfSum(before, last, room);
    if room <= |before| {
      Associative(Take(before, room), later, Take(last, 1));
    }
  }

  lemma LaterStep<T>(lists: seq<seq<T>>, n: nat, room: nat)
    requires 1 <= n <= |lists| && 1 <= room
    ensures Later(lists, n, room) ==
            if room <= |Flatten(lists, n - 1)| then Later(lists, n - 1, room) + Take(lists[n - 1], 1) else []
  {
  }

  lemma NothingLaterWithoutRoom<T>(lists: seq<seq<T>>, n: nat, room: int)
    requires n <= |lists| && room < 1
    ensures Later(lists, n, room) == []
  {
  }

  lemma WritesClosedForm<T>(first: seq<T>, lists: seq<seq<T>>, capacity: nat)
    requires 1 <= capacity
    ensures var all := first + Flatten(lists, |lists|);
            Writes(first, lists, capacity) ==
            Take(all, capacity) + Later(lists, |lists|, capacity - |first|)
  {
    hide Accepted, Later, Flatten;
    var rest, room := Flatten(lists, |lists|), capacity - |first|;
    if room < 1 {
      NothingLaterWithoutRoom(lists, |lists|, room);
    }
    if 1 <= room {
      AcceptedClosedForm(lists, |lists|, room);
      TakeAcross(first, rest, Later(lists, |lists|, room), capacity);
    } else {
      TakeOfSum(first, rest, capacity);
    }
  }

  /**
    How `size` and `table` look after the pass over a table that held `stale` before. `all` is
    everything there is to collect, `later` the rows that arrive after the table has become full.
   */
  ghost predicate IsExactResult<T>(
    all: seq<T>, later: seq<T>, stale: seq<T>, size: nat, table: seq<T>)
    requires 1 <= |stale| == |table|
  {
    var capacity := |stale|;
    if |all| < capacity then
      size == |all| && table == all + stale[|all|..]
    else
      && size == capacity + |later|
      && table[..capacity - 1] == all[..capacity - 1]
      && table[capacity - 1] == if later == [] then all[capacity - 1] else later[|later| - 1]
  }

  /** The pass has that exact result for all lists and every capacity. */
  lemma ExactResult<T>(first: seq<T>, lists: seq<seq<T>>, stale: seq<T>)
    requires 1 <= |stale|
    ensures var writes := Writes(first, lists, |stale|);
            var later := Later(lists, |lists|, |stale| - |first|);
            IsExactResult(first + Flatten(lists, |lists|), later, stale, |writes|, Overlay(stale, writes))
  {
    hide Accepted, Flatten, Later, IsExactResult;
    WritesClosedForm(first, lists, |stale|);
    if |first + Flatten(lists, |lists|)| < |stale| {
      NothingLaterWhenAllFit(lists, |lists|, |stale| - |first|);
    }
    OverlayOfTakenRows(first + Flatten(lists, |lists|), Later(lists, |lists|, |stale| - |first|), stale);
  }

  lemma OverlayOfTakenRows<T>(all: seq<T>, later: seq<T>, stale: seq<T>)
    requires 1 <= |stale| && (|all| < |stale| ==> later == [])
    ensures var writes := Take(all, |stale|) + later;
            IsExactResult(all, later, stale, |writes|, Overlay(stale, writes))
  {
  }

  /** The table shows every row, and the size is their number, exactly when they all fit. */
  lemma CompleteIffAllFit<T>(first: seq<T>, lists: seq<seq<T>>, stale: seq<T>)
    requires 1 <= |stale|
    ensures var all := first + Flatten(lists, |lists|);
            var writes := Writes(first, lists, |stale|);
            var live := Overlay(stale, writes)[..Min(|writes|, |stale|)];
            (|writes| == |all| && live == all) <==> |all| <= |stale|
  {
    var all := first + Flatten(lists, |lists|);
    if |all| <= |stale| {
      WritesClosedForm(first, lists, |stale|);
      NothingLaterWhenAllFit(lists, |lists|, |stale| - |first|);
      OverlayIsLossless(stale, all);
    }
  }

  /** When the lists do not overflow the room, nothing comes after the list that filled it. */
  lemma {:induction false} NothingLaterWhenAllFit<T>(lists: seq<seq<T>>, n: nat, room: nat)
    requires n <= |lists| && |Flatten(lists, n)| <= room
    ensures Later(lists, n, room) == []
  {
    if n != 0 && 1 <= room == |Flatten(lists, n - 1)| {
      NothingLaterWhenAllFit(lists, n - 1, room);
    }
  }

  /**
    No row overwrites another one: the first list alone fills the table, or the table is never filled,
    or no non-empty list follows the one that fills it.
   */
  ghost predicate NothingOverwritten<T>(first: seq<T>, lists: seq<seq<T>>, capacity: nat)
    requires 1 <= capacity
  {
    var n := |lists|;
    || capacity <= |first|
    || |first + Flatten(lists, n)| < capacity
    || (forall d | FillIndex(lists, n, capacity - |first|) < d < n :: |lists[d]| == 0)
  }

  /** The published size stays within the capacity in exactly these cases. */
  lemma SizeWithinCapacityIff<T>(first: seq<T>, lists: seq<seq<T>>, capacity: nat)
    requires 1 <= capacity
    ensures |Writes(first, lists, capacity)| <= capacity <==> NothingOverwritten(first, lists, capacity)
  {
    hide Accepted;
    var n, room := |lists|, capacity - |first|;
    WritesClosedForm(first, lists, capacity);
    if 1 <= room <= |Flatten(lists, n)| {
      FirstsEmptyIff(lists, FillIndex(lists, n, room) + 1, n);
    }
  }

  lemma {:induction false} FirstsEmptyIff<T>(lists: seq<seq<T>>, lo: nat, hi: nat)
    requires lo <= hi <= |lists|
    ensures |Firsts(lists, lo, hi)| == 0 <==> forall d | lo <= d < hi :: |lists[d]| == 0
    decreases hi
  {
    if lo != hi {
      FirstsEmptyIff(lists, lo, hi - 1);
    }
  }

  /** Two lists with a row each already push the size past a capacity of one. */
  lemma SizeCanExceedCapacity<T>(row: T)
    ensures |Writes([], [[row], [row]], 1)| == 2
  {
    assert Accepted([[row], [row]], 1, 1) == [row];
  }

  lemma {:induction false} FirstsAreMembers<T>(lists: seq<seq<T>>, lo: nat, hi: nat, row: T)
    requires lo <= hi <= |lists| && row in Firsts(lists, lo, hi)
    ensures row in Flatten(lists, hi)
    decreases hi
  {
    if row in Firsts(lists, lo, hi - 1) {
      FirstsAreMembers(lists, lo, hi - 1, row);
    }
  }

  /** Nothing is written that was not there to be written. */
  lemma WrittenRowsAreMembers<T>(first: seq<T>, lists: seq<seq<T>>, capacity: nat, row: T)
    requires 1 <= capacity && row in Writes(first, lists, capacity)
    ensures row in first + Flatten(lists, |lists|)
  {
    hide Accepted, Flatten, Firsts;
    var n, room := |lists|, capacity - |first|;
    WritesClosedForm(first, lists, capacity);
    if row in Later(lists, n, room) {
      FirstsAreMembers(lists, FillIndex(lists, n, room) + 1, n, row);
    }
  }
}
