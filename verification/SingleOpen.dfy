/**
  The configuration device as a protocol between any number of clients. A spin lock protects the open
  count; only a client that has the device open sends entries. Taking and giving back the lock, each load and
  store of the count, each search of the table and the storing of an entry are steps of their own, and the
  steps of different clients can interleave in every possible way.
 */
module SingleOpen {
  import opened Sequences
  import opened Wrappers
  import opened SnmpTable

  type Client = nat

  /** Where a client is. */
  datatype Phase =
    | Idle
      // Opening the device.
    | OpenWaiting                                // wants the lock
    | OpenLocked                                 // has the lock, is about to test the count
    | OpenRefused                                // has the lock, found the device in use
    | OpenLoaded(count: int)                     // has the lock, has read the count to increment it
    | OpenCounted                                // has the lock, has written the count
      // Using the device.
    | Holding
    | Searched(entry: Entry, found: Option<nat>) // knows whether and where the entry exists
    | Allocated(entry: Entry, slot: Option<nat>) // knows the free slot, if there is one
      // Releasing the device.
    | ReleaseWaiting
    | ReleaseLocked
    | ReleaseLoaded(count: int)
    | ReleaseCounted
  {
    predicate HasLock() {
      || OpenLocked? || OpenRefused? || OpenLoaded? || OpenCounted?
      || ReleaseLocked? || ReleaseLoaded? || ReleaseCounted?
    }

    /** The client is counted as a user of the device. */
    predicate IsCounted() {
      || OpenCounted? || Holding? || Searched? || Allocated?
      || ReleaseWaiting? || ReleaseLocked? || ReleaseLoaded?
    }
  }

  /** `log` lists the entries whose creation is complete, in that order. */
  datatype State = State(
    locked: bool, openCount: int, phases: map<Client, Phase>, table: seq<Entry>, log: seq<Entry>)
  {
    function PhaseOf(c: Client): Phase { if c in phases then phases[c] else Idle }

    function Enter(c: Client, p: Phase): State { this.(phases := phases[c := p]) }
  }

  const INITIAL := State(false, 0, map[], [], [])

  /** What a client does next where it has a choice; elsewhere there is only one way on. */
  datatype Choice = Proceed | OpenDevice | ReleaseDevice | SendEntry(entry: Entry)

  /** One step of client `c`, or `None` when it cannot take that step now. */
  function Next(s: State, c: Client, choice: Choice, capacity: nat): Option<State> {
    match (s.PhaseOf(c), choice)
    case (Idle, OpenDevice) => Some(s.Enter(c, OpenWaiting))
    case (OpenWaiting, Proceed) =>
      if s.locked then None else Some(s.Enter(c, OpenLocked).(locked := true))
    case (OpenLocked, Proceed) =>
      Some(s.Enter(c, if s.openCount != 0 then OpenRefused else OpenLoaded(s.openCount)))
    case (OpenRefused, Proceed) => Some(s.Enter(c, Idle).(locked := false))
    case (OpenLoaded(count), Proceed) => Some(s.Enter(c, OpenCounted).(openCount := count + 1))
    case (OpenCounted, Proceed) => Some(s.Enter(c, Holding).(locked := false))
    case (Holding, SendEntry(e)) =>
      var i := Find(s.table, e.oid);
      Some(s.Enter(c, Searched(e, if i < |s.table| then Some(i) else None)))
    case (Searched(e, Some(i)), Proceed) =>
      Some(s.Enter(c, Holding).(table := Store(s.table, i, e), log := s.log + [e]))
    case (Searched(e, None), Proceed) =>
      Some(s.Enter(c, Allocated(e, if |s.table| < capacity then Some(|s.table|) else None)))
    case (Allocated(e, slot), Proceed) =>
      Some(s.Enter(c, Holding).(
        table := if slot.Some? then Store(s.table, slot.value, e) else s.table, log := s.log + [e]))
    case (Holding, ReleaseDevice) => Some(s.Enter(c, ReleaseWaiting))
    case (ReleaseWaiting, Proceed) =>
      if s.locked then None else Some(s.Enter(c, ReleaseLocked).(locked := true))
    case (ReleaseLocked, Proceed) => Some(s.Enter(c, ReleaseLoaded(s.openCount)))
    case (ReleaseLoaded(count), Proceed) => Some(s.Enter(c, ReleaseCounted).(openCount := count - 1))
    case (ReleaseCounted, Proceed) => Some(s.Enter(c, Idle).(locked := false))
    case _ => None
  }

  /** Writing to a slot that a search has determined before, in use or not. */
  function Store(t: seq<Entry>, i: nat, e: Entry): seq<Entry> {
    if i < |t| then t[i := e] else t + [e]
  }

  /** The state after an interleaving of steps, or `None` when some step was not possible. */
  function Behave(steps: seq<(Client, Choice)>, capacity: nat): Option<State> {
    if steps == [] then Some(INITIAL)
    else
      var before, step := Behave(steps[..|steps| - 1], capacity), steps[|steps| - 1];
      if before.None? then None else Next(before.value, step.0, step.1, capacity)
  }

  /** The lock is held by exactly one client, if any. */
  ghost predicate LockIsExclusive(s: State) {
    && (s.locked <==> exists c :: s.PhaseOf(c).HasLock())
    && forall c, d :: s.PhaseOf(c).HasLock() && s.PhaseOf(d).HasLock() ==> c == d
  }

  /** The count is the number of counted clients, and that is at most one. */
  ghost predicate CountIsExact(s: State) {
    && s.openCount == (if exists c :: s.PhaseOf(c).IsCounted() then 1 else 0)
    && (forall c, d :: s.PhaseOf(c).IsCounted() && s.PhaseOf(d).IsCounted() ==> c == d)
  }

  /** Whatever a client has read is still true. */
  ghost predicate ReadsAreCurrent(s: State, capacity: nat) {
    forall c :: PhaseIsCurrent(s, s.PhaseOf(c), capacity)
  }

  predicate PhaseIsCurrent(s: State, p: Phase, capacity: nat) {
    match p
    case OpenLoaded(count) => count == s.openCount == 0
    case ReleaseLoaded(count) => count == s.openCount
    case Searched(e, found) =>
      var i := Find(s.table, e.oid);
      found == if i < |s.table| then Some(i) else None
    case Allocated(e, slot) =>
      && Find(s.table, e.oid) == |s.table|
      && slot == if |s.table| < capacity then Some(|s.table|) else None
    case _ => true
  }

  /** The table is what the completed creations make of it one after the other. */
  ghost predicate TableIsSerial(s: State, capacity: nat) {
    s.table == Run(Creates(s.log), capacity)
  }

  ghost predicate Inv(s: State, capacity: nat) {
    LockIsExclusive(s) && CountIsExact(s) && ReadsAreCurrent(s, capacity) && TableIsSerial(s, capacity)
  }

  /** A step changes the phase of the client that takes it and of no other. */
  lemma NextMovesOneClient(s: State, c: Client, choice: Choice, capacity: nat)
    requires Next(s, c, choice, capacity).Some?
    ensures forall d :: d != c ==> Next(s, c, choice, capacity).value.PhaseOf(d) == s.PhaseOf(d)
  {
  }

  /** Only a client without the lock can take it, only when it is free, and only its owner gives it back. */
  lemma NextMovesLock(s: State, c: Client, choice: Choice, capacity: nat)
    requires Next(s, c, choice, capacity).Some?
    ensures var t := Next(s, c, choice, capacity).value;
            var had, has := s.PhaseOf(c).HasLock(), t.PhaseOf(c).HasLock();
            t.locked == (if had == has then s.locked else has) && (!had && has ==> !s.locked)
  {
  }

  lemma NextKeepsLock(s: State, c: Client, choice: Choice, capacity: nat)
    requires LockIsExclusive(s) && Next(s, c, choice, capacity).Some?
    ensures LockIsExclusive(Next(s, c, choice, capacity).value)
  {
    NextMovesOneClient(s, c, choice, capacity);
    NextMovesLock(s, c, choice, capacity);
    hide Next;
    var t := Next(s, c, choice, capacity).value;
    if t.locked && !t.PhaseOf(c).HasLock() {
      var d :| s.PhaseOf(d).HasLock();
      assert t.PhaseOf(d).HasLock();
    }
  }

  /** The count follows the client that is counted or no longer counted with the step. */
  lemma NextMovesCount(s: State, c: Client, choice: Choice, capacity: nat)
    requires PhaseIsCurrent(s, s.PhaseOf(c), capacity) && Next(s, c, choice, capacity).Some?
    ensures var t := Next(s, c, choice, capacity).value;
            var was, now := s.PhaseOf(c).IsCounted(), t.PhaseOf(c).IsCounted();
            && (was == now ==> t.openCount == s.openCount)
            && (was && !now ==> t.openCount == s.openCount - 1)
            && (!was && now ==> s.openCount == 0 && t.openCount == 1)
  {
  }

  lemma NextKeepsCount(s: State, c: Client, choice: Choice, capacity: nat)
    requires CountIsExact(s) && PhaseIsCurrent(s, s.PhaseOf(c), capacity) && Next(s, c, choice, capacity).Some?
    ensures CountIsExact(Next(s, c, choice, capacity).value)
  {
    NextMovesOneClient(s, c, choice, capacity);
    NextMovesCount(s, c, choice, capacity);
    hide Next, PhaseIsCurrent;
    var t := Next(s, c, choice, capacity).value;
    if s.openCount == 1 {
      var d :| s.PhaseOf(d).IsCounted();
      assert d != c ==> t.PhaseOf(d).IsCounted();
    }
  }

  lemma OwnReadIsCurrent(s: State, c: Client, choice: Choice, capacity: nat)
    requires PhaseIsCurrent(s, s.PhaseOf(c), capacity) && Next(s, c, choice, capacity).Some?
    ensures var t := Next(s, c, choice, capacity).value; PhaseIsCurrent(t, t.PhaseOf(c), capacity)
  {
  }

  /** A step that changes the count needs the lock; one that changes the table needs the device. */
  lemma ChangesNeedExclusion(s: State, c: Client, choice: Choice, capacity: nat)
    requires Next(s, c, choice, capacity).Some?
    ensures var t := Next(s, c, choice, capacity).value;
            && (t.openCount != s.openCount ==> s.PhaseOf(c).HasLock())
            && (t.table != s.table ==> s.PhaseOf(c).IsCounted())
  {
  }

  lemma OtherReadIsCurrent(s: State, c: Client, d: Client, choice: Choice, capacity: nat)
    requires LockIsExclusive(s) && CountIsExact(s) && Next(s, c, choice, capacity).Some?
    requires c != d && PhaseIsCurrent(s, s.PhaseOf(d), capacity)
    ensures PhaseIsCurrent(Next(s, c, choice, capacity).value, s.PhaseOf(d), capacity)
  {
    ChangesNeedExclusion(s, c, choice, capacity);
    hide Next, Find;
  }

  lemma NextKeepsReads(s: State, c: Client, choice: Choice, capacity: nat)
    requires Inv(s, capacity) && Next(s, c, choice, capacity).Some?
    ensures ReadsAreCurrent(Next(s, c, choice, capacity).value, capacity)
  {
    NextMovesOneClient(s, c, choice, capacity);
    hide Next, PhaseIsCurrent;
    var t := Next(s, c, choice, capacity).value;
    forall d
      ensures PhaseIsCurrent(t, t.PhaseOf(d), capacity)
    {
      if d == c {
        OwnReadIsCurrent(s, c, choice, capacity);
      } else {
        OtherReadIsCurrent(s, c, d, choice, capacity);
      }
    }
  }

  /** A step either completes one creation with its full effect or leaves the table alone. */
  lemma NextCompletesCreation(s: State, c: Client, choice: Choice, capacity: nat)
    requires PhaseIsCurrent(s, s.PhaseOf(c), capacity) && Next(s, c, choice, capacity).Some?
    ensures var t := Next(s, c, choice, capacity).value;
            || (t.log == s.log && t.table == s.table)
            || (exists e :: t.log == s.log + [e] && t.table == Apply(s.table, Create(e), capacity))
  {
    var t := Next(s, c, choice, capacity).value;
    if t.log != s.log {
      var e := t.log[|s.log|];
      assert t.log == s.log + [e];
    }
  }

  lemma RunOneMore(es: seq<Entry>, e: Entry, capacity: nat)
    ensures Run(Creates(es + [e]), capacity) == Apply(Run(Creates(es), capacity), Create(e), capacity)
  {
    assert Creates(es + [e])[..|es|] == Creates(es);
  }

  lemma NextKeepsTable(s: State, c: Client, choice: Choice, capacity: nat)
    requires TableIsSerial(s, capacity)
    requires PhaseIsCurrent(s, s.PhaseOf(c), capacity) && Next(s, c, choice, capacity).Some?
    ensures TableIsSerial(Next(s, c, choice, capacity).value, capacity)
  {
    NextCompletesCreation(s, c, choice, capacity);
    hide Next, PhaseIsCurrent, Run, Apply;
    var t := Next(s, c, choice, capacity).value;
    if t.log != s.log {
      var e :| t.log == s.log + [e] && t.table == Apply(s.table, Create(e), capacity);
      RunOneMore(s.log, e, capacity);
    }
  }

  /** Every reachable state, for any number of clients and any interleaving, satisfies the invariant. */
  lemma {:induction false} Safety(steps: seq<(Client, Choice)>, capacity: nat)
    requires Behave(steps, capacity).Some?
    ensures Inv(Behave(steps, capacity).value, capacity)
  {
    if steps != [] {
      var init, step := steps[..|steps| - 1], steps[|steps| - 1];
      Safety(init, capacity);
      var s := Behave(init, capacity).value;
      hide Next;
      NextKeepsLock(s, step.0, step.1, capacity);
      NextKeepsCount(s, step.0, step.1, capacity);
      NextKeepsReads(s, step.0, step.1, capacity);
      NextKeepsTable(s, step.0, step.1, capacity);
    }
  }

  // The entries that clients have sent, read off the steps.

  /** A client has sent an entry whose creation is not complete. */
  predicate IsSending(p: Phase) { p.Searched? || p.Allocated? }

  /** The entry that `c` was the last to send. */
  function LastSent(steps: seq<(Client, Choice)>, c: Client): Option<Entry> {
    if steps == [] then None
    else
      var step := steps[|steps| - 1];
      if step.0 == c && step.1.SendEntry? then Some(step.1.entry) else LastSent(steps[..|steps| - 1], c)
  }

  /** The entries of all sends after which their client is back to holding the device, in the order of their ends. */
  function Completed(steps: seq<(Client, Choice)>, capacity: nat): seq<Entry>
    requires Behave(steps, capacity).Some?
  {
    if steps == [] then []
    else
      var init, c := steps[..|steps| - 1], steps[|steps| - 1].0;
      var sent := LastSent(init, c);
      var before, after := Behave(init, capacity).value.PhaseOf(c), Behave(steps, capacity).value.PhaseOf(c);
      if IsSending(before) && after.Holding? && sent.Some? then Completed(init, capacity) + [sent.value]
      else Completed(init, capacity)
  }

  lemma NextSends(s: State, c: Client, choice: Choice, capacity: nat)
    requires Next(s, c, choice, capacity).Some?
    ensures var p, q := s.PhaseOf(c), Next(s, c, choice, capacity).value.PhaseOf(c);
            && (choice.SendEntry? ==> q.Searched? && q.entry == choice.entry)
            && (!choice.SendEntry? && IsSending(q) ==> IsSending(p) && q.entry == p.entry)
  {
  }

  lemma NextLogs(s: State, c: Client, choice: Choice, capacity: nat)
    requires Next(s, c, choice, capacity).Some?
    ensures var p, t := s.PhaseOf(c), Next(s, c, choice, capacity).value;
            t.log == if IsSending(p) && t.PhaseOf(c).Holding? then s.log + [p.entry] else s.log
  {
  }

  /** A client that is sending is busy with the entry it was the last to send. */
  lemma {:induction false} SendingIsLastSent(steps: seq<(Client, Choice)>, capacity: nat, c: Client)
    requires Behave(steps, capacity).Some?
    ensures var p := Behave(steps, capacity).value.PhaseOf(c);
            IsSending(p) ==> LastSent(steps, c) == Some(p.entry)
  {
    if steps != [] {
      var init, step := steps[..|steps| - 1], steps[|steps| - 1];
      SendingIsLastSent(init, capacity, c);
      NextSends(Behave(init, capacity).value, step.0, step.1, capacity);
      NextMovesOneClient(Behave(init, capacity).value, step.0, step.1, capacity);
      hide Next;
    }
  }

  /** For any interleaving, the log lists exactly the sends that have run to their end. */
  lemma {:induction false} LogIsCompletedSends(steps: seq<(Client, Choice)>, capacity: nat)
    requires Behave(steps, capacity).Some?
    ensures Behave(steps, capacity).value.log == Completed(steps, capacity)
  {
    if steps != [] {
      var init, step := steps[..|steps| - 1], steps[|steps| - 1];
      LogIsCompletedSends(init, capacity);
      SendingIsLastSent(init, capacity, step.0);
      NextLogs(Behave(init, capacity).value, step.0, step.1, capacity);
      hide Next, LastSent;
    }
  }

  function Counted(s: State): set<Client> { set c | c in s.phases && s.phases[c].IsCounted() }

  /**
    In every reachable state the open count is the number of clients that have the device, it is at most
    one, and the table is the one that the completed sends produce one after the other.
   */
  lemma ReachableStates(steps: seq<(Client, Choice)>, capacity: nat)
    requires Behave(steps, capacity).Some?
    ensures var s := Behave(steps, capacity).value;
            && |Counted(s)| == s.openCount <= 1
            && s.table == Run(Creates(Completed(steps, capacity)), capacity)
            && |s.table| <= capacity && NoDuplicates(Keys(s.table))
  {
    Safety(steps, capacity);
    LogIsCompletedSends(steps, capacity);
    hide Behave, LockIsExclusive, ReadsAreCurrent, Completed;
    var s := Behave(steps, capacity).value;
    RunIsBounded(Creates(s.log), capacity);
    RunRefinesOrderedMap(Creates(s.log), capacity);
    CountedIsCount(s);
  }

  lemma CountedIsCount(s: State)
    requires CountIsExact(s)
    ensures |Counted(s)| == s.openCount
  {
    if exists c :: s.PhaseOf(c).IsCounted() {
      var c: Client :| s.PhaseOf(c).IsCounted();
      assert c in s.phases;
      assert forall d | d in Counted(s) :: s.PhaseOf(d).IsCounted();
      assert Counted(s) == {c};
    } else {
      assert forall c | c in s.phases :: !s.PhaseOf(c).IsCounted();
      assert Counted(s) == {};
    }
  }

  /** Outside the critical section the counted clients are those that are using or about to release the device. */
  lemma UnlockedMeansHolding(steps: seq<(Client, Choice)>, capacity: nat, c: Client)
    requires Behave(steps, capacity).Some? && !Behave(steps, capacity).value.locked
    ensures var p := Behave(steps, capacity).value.PhaseOf(c);
            p.IsCounted() <==> p.Holding? || p.Searched? || p.Allocated? || p.ReleaseWaiting?
  {
    Safety(steps, capacity);
    assert !Behave(steps, capacity).value.PhaseOf(c).HasLock();
  }

  /** While one client has the device, a client that tests the count is turned away. */
  lemma SecondOpenIsRefused(steps: seq<(Client, Choice)>, capacity: nat, holder: Client, c: Client)
    requires Behave(steps, capacity).Some?
    requires Behave(steps, capacity).value.PhaseOf(holder).IsCounted()
    requires Behave(steps, capacity).value.PhaseOf(c).OpenLocked?
    ensures var t := Next(Behave(steps, capacity).value, c, Proceed, capacity);
            t.Some? && t.value.PhaseOf(c).OpenRefused?
  {
    Safety(steps, capacity);
  }

  // The operations, when nothing comes in between.

  const ENODEV := 19
  const EUSERS := 87

  /** The state after `n` steps of one client in a row, without a choice. */
  function Proceeds(s: State, c: Client, n: nat, capacity: nat): Option<State>
    decreases n
  {
    if n == 0 then Some(s)
    else
      var t := Next(s, c, Proceed, capacity);
      if t.None? then None else Proceeds(t.value, c, n - 1, capacity)
  }

  /**
    A client that holds the device and sends an entry gets back to holding it with the entry created: after
    one more step when its OID is in the table already, and after two when it is not.
   */
  lemma SendCreatesEntry(s: State, capacity: nat, c: Client, e: Entry)
    requires s.PhaseOf(c).Holding?
    ensures var sent := Next(s, c, SendEntry(e), capacity);
            && sent.Some?
            && var end := Proceeds(sent.value, c, if e.oid in Keys(s.table) then 1 else 2, capacity);
            && end.Some? && end.value.PhaseOf(c).Holding?
            && end.value.table == Apply(s.table, Create(e), capacity)
            && end.value.log == s.log + [e]
            && end.value.locked == s.locked && end.value.openCount == s.openCount
            && forall d :: d != c ==> end.value.PhaseOf(d) == s.PhaseOf(d)
  {
    FindDecides(s.table, e.oid);
    var sent := Next(s, c, SendEntry(e), capacity).value;
    ProceedsOneMore(sent, c, 0, capacity);
    ProceedsOneMore(sent, c, 1, capacity);
    hide Proceeds, Find, Keys;
  }

  /** All steps of an open: it ends after the test when the device is in use. */
  function OpenRun(s: State, c: Client, capacity: nat): Option<State> {
    var start := Next(s, c, OpenDevice, capacity);
    if start.None? then None else Proceeds(start.value, c, if s.openCount != 0 then 3 else 4, capacity)
  }

  function ReleaseRun(s: State, c: Client, capacity: nat): Option<State> {
    var start := Next(s, c, ReleaseDevice, capacity);
    if start.None? then None else Proceeds(start.value, c, 4, capacity)
  }

  /** What an open without interruption leads to. */
  lemma UninterruptedOpen(s: State, c: Client, capacity: nat)
    requires s.PhaseOf(c) == Idle && !s.locked
    ensures var end := OpenRun(s, c, capacity);
            && end.Some? && !end.value.locked && end.value.table == s.table
            && end.value.openCount == (if s.openCount != 0 then s.openCount else 1)
            && end.value.PhaseOf(c) == (if s.openCount != 0 then Idle else Holding)
            && forall d :: d != c ==> end.value.PhaseOf(d) == s.PhaseOf(d)
  {
    var waiting := Next(s, c, OpenDevice, capacity).value;
    var locked := Next(waiting, c, Proceed, capacity).value;
    var tested := Next(locked, c, Proceed, capacity).value;
    var last := Next(tested, c, Proceed, capacity).value;
    assert Proceeds(last, c, 0, capacity) == Some(last);
    if s.openCount != 0 {
      assert Proceeds(tested, c, 1, capacity) == Some(last);
      assert Proceeds(locked, c, 2, capacity) == Some(last);
    } else {
      var holding := Next(last, c, Proceed, capacity).value;
      assert Proceeds(last, c, 1, capacity) == Some(holding);
      assert Proceeds(tested, c, 2, capacity) == Some(holding);
      assert Proceeds(locked, c, 3, capacity) == Some(holding);
    }
  }

  /** What a release without interruption leads to. */
  lemma UninterruptedRelease(s: State, c: Client, capacity: nat)
    requires s.PhaseOf(c) == Holding && !s.locked
    ensures var end := ReleaseRun(s, c, capacity);
            && end.Some? && !end.value.locked && end.value.table == s.table
            && end.value.openCount == s.openCount - 1 && end.value.PhaseOf(c) == Idle
            && forall d :: d != c ==> end.value.PhaseOf(d) == s.PhaseOf(d)
  {
    var waiting := Next(s, c, ReleaseDevice, capacity).value;
    var locked := Next(waiting, c, Proceed, capacity).value;
    var loaded := Next(locked, c, Proceed, capacity).value;
    var counted := Next(loaded, c, Proceed, capacity).value;
    var released := Next(counted, c, Proceed, capacity).value;
    assert Proceeds(released, c, 0, capacity) == Some(released);
    assert Proceeds(counted, c, 1, capacity) == Some(released);
    assert Proceeds(loaded, c, 2, capacity) == Some(released);
    assert Proceeds(locked, c, 3, capacity) == Some(released);
  }

  /** The lock and the count in a state that has been reached. */
  predicate At(s: Option<State>, locked: bool, count: int) {
    s.Some? && s.value.locked == locked && s.value.openCount == count
  }

  /** The lock and the count after each step of an open. */
  lemma OpenStages(s: State, c: Client, capacity: nat)
    requires s.PhaseOf(c) == Idle && !s.locked
    ensures At(Next(s, c, OpenDevice, capacity), false, s.openCount)
    ensures var start := Next(s, c, OpenDevice, capacity).value;
            && Proceeds(start, c, 0, capacity) == Some(start)
            && At(Proceeds(start, c, 1, capacity), true, s.openCount)
            && At(Proceeds(start, c, 2, capacity), true, s.openCount)
            && At(Proceeds(start, c, 3, capacity), s.openCount == 0, if s.openCount != 0 then s.openCount else 1)
            && (s.openCount == 0 ==> At(Proceeds(start, c, 4, capacity), false, 1))
            && OpenRun(s, c, capacity) == Proceeds(start, c, if s.openCount != 0 then 3 else 4, capacity)
  {
    var start := Next(s, c, OpenDevice, capacity).value;
    ProceedsOneMore(start, c, 0, capacity);
    ProceedsOneMore(start, c, 1, capacity);
    ProceedsOneMore(start, c, 2, capacity);
    ProceedsOneMore(start, c, 3, capacity);
    hide Proceeds;
  }

  lemma ReleaseStages(s: State, c: Client, capacity: nat)
    requires s.PhaseOf(c) == Holding && !s.locked
    ensures At(Next(s, c, ReleaseDevice, capacity), false, s.openCount)
    ensures var start := Next(s, c, ReleaseDevice, capacity).value;
            && Proceeds(start, c, 0, capacity) == Some(start)
            && At(Proceeds(start, c, 1, capacity), true, s.openCount)
            && At(Proceeds(start, c, 2, capacity), true, s.openCount)
            && At(Proceeds(start, c, 3, capacity), true, s.openCount - 1)
            && At(Proceeds(start, c, 4, capacity), false, s.openCount - 1)
            && ReleaseRun(s, c, capacity) == Proceeds(start, c, 4, capacity)
  {
    var start := Next(s, c, ReleaseDevice, capacity).value;
    ProceedsOneMore(start, c, 0, capacity);
    ProceedsOneMore(start, c, 1, capacity);
    ProceedsOneMore(start, c, 2, capacity);
    ProceedsOneMore(start, c, 3, capacity);
    hide Proceeds;
  }

  lemma {:induction false} ProceedsOneMore(s: State, c: Client, n: nat, capacity: nat)
    ensures Proceeds(s, c, 0, capacity) == Some(s)
    ensures var t := Proceeds(s, c, n, capacity);
            Proceeds(s, c, n + 1, capacity) == if t.None? then None else Next(t.value, c, Proceed, capacity)
    decreases n
  {
    hide Next;
    if n != 0 && Next(s, c, Proceed, capacity).Some? {
      ProceedsOneMore(Next(s, c, Proceed, capacity).value, c, n - 1, capacity);
    } else if n == 0 {
      var t := Next(s, c, Proceed, capacity);
      assert t.Some? ==> Proceeds(t.value, c, 0, capacity) == t;
    }
  }

  /** An open gives the device to the client that calls it exactly when nobody has it; otherwise nothing changes. */
  lemma OpenMovesHolder(s: State, c: Client, capacity: nat)
    requires CountIsExact(s) && s.PhaseOf(c) == Idle && !s.locked
    requires OpenRun(s, c, capacity).Some? && CountIsExact(OpenRun(s, c, capacity).value)
    ensures s.openCount != 0 <==> Counted(s) != {}
    ensures Counted(OpenRun(s, c, capacity).value) == if Counted(s) == {} then {c} else Counted(s)
  {
    UninterruptedOpen(s, c, capacity);
    hide OpenRun;
    var t := OpenRun(s, c, capacity).value;
    CountedMeansCounted(s);
    CountedMeansCounted(t);
    hide Counted;
    if s.openCount == 0 {
      assert c in Counted(t);
      assert Counted(t) == {c};
    } else {
      assert forall d :: d in Counted(t) <==> d in Counted(s);
    }
  }

  /** After a release nobody has the device. */
  lemma ReleaseFreesDevice(s: State, c: Client, capacity: nat)
    requires CountIsExact(s) && s.PhaseOf(c) == Holding && !s.locked
    ensures Counted(s) == {c} && Counted(ReleaseRun(s, c, capacity).value) == {}
  {
    UninterruptedRelease(s, c, capacity);
    hide ReleaseRun;
    var t := ReleaseRun(s, c, capacity).value;
    CountedMeansCounted(s);
    CountedMeansCounted(t);
    hide Counted;
    assert c in Counted(s);
    assert Counted(s) == {c};
    assert forall d :: d !in Counted(t);
  }

  lemma ReachedIsExact(steps: seq<(Client, Choice)>, capacity: nat)
    requires Behave(steps, capacity).Some?
    ensures CountIsExact(Behave(steps, capacity).value)
  {
    Safety(steps, capacity);
    hide Behave, CountIsExact;
  }

  lemma CountedMeansCounted(s: State)
    ensures forall c :: c in Counted(s) <==> s.PhaseOf(c).IsCounted()
    ensures CountIsExact(s) ==> |Counted(s)| == s.openCount
    ensures CountIsExact(s) ==> forall c, d :: c in Counted(s) && d in Counted(s) ==> c == d
  {
    if CountIsExact(s) {
      CountedIsCount(s);
    }
  }

  /**
    A driver object for one device. `model` is the state of the step model and `history` the steps, of this
    and all other clients, that have led to it.
   */
  class Device {
    var locked: bool
    var openCount: int
    ghost var model: State
    ghost var history: seq<(Client, Choice)>
    ghost const capacity: nat

    ghost predicate Valid()
      reads this
    {
      IsReached() && locked == model.locked && openCount == model.openCount
    }

    ghost predicate IsReached()
      reads this
    {
      Behave(history, capacity) == Some(model)
    }

    constructor (ghost capacity: nat)
      ensures Valid() && model == INITIAL && this.capacity == capacity
    {
      locked, openCount := false, 0;
      model, history := INITIAL, [];
      this.capacity := capacity;
    }

    /** Takes a step of the model. */
    ghost method Step(c: Client, choice: Choice)
      requires IsReached() && Next(model, c, choice, capacity).Some?
      modifies this`model, this`history
      ensures IsReached() && Some(model) == Next(old(model), c, choice, capacity)
    {
      hide Next;
      assert (history + [(c, choice)])[..|history|] == history;
      history := history + [(c, choice)];
      model := Next(model, c, choice, capacity).value;
    }

    /** Takes the step `n` from `start` on, which goes with a statement of the program. */
    ghost method StepFrom(start: State, n: nat, c: Client)
      requires IsReached() && Proceeds(start, c, n, capacity) == Some(model)
      requires Proceeds(start, c, n + 1, capacity).Some?
      modifies this`model, this`history
      ensures IsReached() && Some(model) == Proceeds(start, c, n + 1, capacity)
    {
      ProceedsOneMore(start, c, n, capacity);
      hide Proceeds, Next;
      Step(c, Proceed);
    }

    /** Opens the device for client `c`, from a moment when the lock is free. The errors are ENODEV and EUSERS. */
    method Open(ghost c: Client, minor: int) returns (ret: int)
      requires Valid() && !locked && model.PhaseOf(c) == Idle
      modifies this
      ensures Valid() && !locked
      ensures if minor != 0 then model == old(model) else Some(model) == OpenRun(old(model), c, capacity)
      ensures ret == if minor != 0 then -19 else if Counted(old(model)) != {} then -87 else 0
      ensures Counted(model) == if ret == 0 then {c} else Counted(old(model))
    {
      if minor != 0 {
        return -ENODEV;
      }
      hide Next, Proceeds, Behave, Counted, CountIsExact, OpenRun, State.Enter;
      ghost var before := model;
      OpenStages(before, c, capacity);
      ReachedIsExact(history, capacity);
      Step(c, OpenDevice);
      ghost var start := model;
      locked := true;
      StepFrom(start, 0, c);
      if openCount != 0 {
        StepFrom(start, 1, c);
        locked := false;
        StepFrom(start, 2, c);
        ret := -EUSERS;
      } else {
        StepFrom(start, 1, c);
        openCount := openCount + 1;
        StepFrom(start, 2, c);
        locked := false;
        StepFrom(start, 3, c);
        ret := 0;
      }
      ReachedIsExact(history, capacity);
      OpenMovesHolder(before, c, capacity);
    }

    /** Releases the device for the client that holds it; anyone can open it afterwards. */
    method Release(ghost c: Client) returns (ret: int)
      requires Valid() && !locked && model.PhaseOf(c) == Holding
      modifies this
      ensures Valid() && !locked
      ensures Some(model) == ReleaseRun(old(model), c, capacity)
      ensures ret == 0 && Counted(old(model)) == {c} && Counted(model) == {}
    {
      hide Next, Proceeds, Behave, Counted, CountIsExact, ReleaseRun, State.Enter;
      ghost var before := model;
      ReleaseStages(before, c, capacity);
      ReachedIsExact(history, capacity);
      ReleaseFreesDevice(before, c, capacity);
      Step(c, ReleaseDevice);
      ghost var start := model;
      locked := true;
      StepFrom(start, 0, c);
      StepFrom(start, 1, c);
      openCount := openCount - 1;
      StepFrom(start, 2, c);
      locked := false;
      StepFrom(start, 3, c);
      return 0;
    }
  }
}
