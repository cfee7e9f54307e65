/**
  A wake-up rule table: a fixed array whose unused slots are recognised by a zero value, and a count
  of stored rules. The value that marks an unused slot can also be received as a rule.
 */
module FilterTables {
  import opened Sequences
  import opened Wrappers
  import opened Devices

  /** An IP protocol code, or a UDP or TCP port rule. */
  datatype Item =
    | Protocol(code: uint8)
    | Ports(src: uint16, dst: uint16, srcMask: uint16, dstMask: uint16)

  type PortRule = x: Item | x.Ports? witness Ports(0, 0, 0, 0)

  /** What the search for an unused slot takes for one. The masks of a port rule are not looked at. */
  predicate IsFree(x: Item) {
    match x
    case Protocol(code) => code == 0
    case Ports(src, dst, _, _) => src == 0 && dst == 0
  }

  datatype Table = Table(slots: seq<Item>, size: nat) {
    /** The slots that the count says are in use. */
    function Live(): seq<Item> { slots[..Min(size, |slots|)] }
  }

  function Empty(zero: Item, capacity: nat): Table { Table(Repeat(zero, capacity), 0) }

  /** The first unused slot from index `k` on, or the capacity when there is none. */
  function FirstFree(slots: seq<Item>, k: nat): (i: nat)
    requires k <= |slots|
    ensures k <= i <= |slots|
    ensures i < |slots| ==> IsFree(slots[i])
    ensures forall j | k <= j < i :: !IsFree(slots[j])
    decreases |slots| - k
  {
    if k == |slots| || IsFree(slots[k]) then k else FirstFree(slots, k + 1)
  }

  /**
    The table after a rule was received, or `None` when looking for the rule reads past the end of the
    array: the search covers as many slots as are counted, and the count can exceed the capacity.
   */
  function Receive(t: Table, x: Item): Option<Table> {
    if x in t.Live() then Some(t)
    else if |t.slots| < t.size then None
    else
      var k := FirstFree(t.slots, 0);
      Some(if k < |t.slots| then Table(t.slots[k := x], t.size + 1) else t)
  }

  function Run(t: Table, xs: seq<Item>): Option<Table> {
    if xs == [] then Some(t)
    else
      var before := Run(t, xs[..|xs| - 1]);
      if before.None? then None else Receive(before.value, xs[|xs| - 1])
  }

  function NonZero(xs: seq<Item>): (r: seq<Item>)
    ensures forall x :: x in r <==> x in xs && !IsFree(x)
  {
    if xs == [] then []
    else
      var init, x := xs[..|xs| - 1], xs[|xs| - 1];
      assert xs == init + [x];
      if IsFree(x) then NonZero(init) else NonZero(init) + [x]
  }

  /** The distinct rules that do not look like an unused slot, in order of first arrival. */
  function Rules(xs: seq<Item>): seq<Item> { Distinct(NonZero(xs)) }

  /** Whether a rule that looks like an unused slot arrived while the table had one. */
  predicate FreeStored(xs: seq<Item>, capacity: nat) {
    xs != [] &&
    var init, x := xs[..|xs| - 1], xs[|xs| - 1];
    FreeStored(init, capacity) || (IsFree(x) && |Rules(init)| < capacity)
  }

  /** Every received rule that looks like an unused slot is the zero rule. */
  predicate OnlyZeroIsFree(xs: seq<Item>, zero: Item) {
    forall x | x in xs :: IsFree(x) ==> x == zero
  }

  /**
    What a table holds: rules that do not look like an unused slot, then `spare` in the first slot that does,
    and the number `stored` of times that such a rule has been stored and counted.
   */
  datatype Content = Content(rules: seq<Item>, spare: Item, stored: nat) {
    /** The rules that look like unused slots and are live; behind `spare` there are only zeros. */
    function Spares(zero: Item, capacity: nat): seq<Item> {
      if |rules| < capacity && 1 <= stored then [spare] + Repeat(zero, Min(stored, capacity - |rules|) - 1) else []
    }

    predicate Shows(x: Item, zero: Item, capacity: nat) {
      x in rules || x in Spares(zero, capacity)
    }

    /** A search for `x` covers all counted slots, which are more than there are. */
    predicate Overruns(x: Item, zero: Item, capacity: nat) {
      !Shows(x, zero, capacity) && capacity < |rules| + stored
    }

    function Add(x: Item, zero: Item, capacity: nat): Content {
      if Shows(x, zero, capacity) || capacity <= |rules| then this
      else if IsFree(x) then Content(rules, x, stored + 1)
      else Content(rules + [x], zero, stored)
    }

    predicate IsSound(capacity: nat) {
      |rules| <= capacity && IsFree(spare) && forall r | r in rules :: !IsFree(r)
    }
  }

  /** What the table holds after a run, unless the run leaves the table. */
  function Summary(xs: seq<Item>, zero: Item, capacity: nat): Content {
    if xs == [] then Content([], zero, 0) else Summary(xs[..|xs| - 1], zero, capacity).Add(xs[|xs| - 1], zero, capacity)
  }

  /** The rules, the spare rule and zeros in the slots, and everything stored in the count. */
  function Packed(c: Content, zero: Item, capacity: nat): Table {
    var rest := if |c.rules| < capacity then [c.spare] + Repeat(zero, capacity - |c.rules| - 1) else [];
    Table(c.rules + rest, |c.rules| + c.stored)
  }

  lemma LiveOfPacked(c: Content, zero: Item, capacity: nat)
    requires |c.rules| <= capacity
    ensures Packed(c, zero, capacity).Live() == c.rules + c.Spares(zero, capacity)
  {
  }

  lemma FirstFreeOfPacked(c: Content, zero: Item, capacity: nat)
    requires c.IsSound(capacity)
    ensures FirstFree(Packed(c, zero, capacity).slots, 0) == |c.rules| && |Packed(c, zero, capacity).slots| == capacity
  {
    var slots := Packed(c, zero, capacity).slots;
    assert forall j | 0 <= j < |c.rules| :: slots[j] == c.rules[j];
    assert |c.rules| < capacity ==> slots[|c.rules|] == c.spare;
  }

  /** One rule received by a packed table. */
  lemma ReceivePacked(c: Content, zero: Item, capacity: nat, x: Item)
    requires IsFree(zero) && c.IsSound(capacity)
    ensures Receive(Packed(c, zero, capacity), x) ==
            if c.Overruns(x, zero, capacity) then None else Some(Packed(c.Add(x, zero, capacity), zero, capacity))
    ensures c.Add(x, zero, capacity).IsSound(capacity)
  {
    LiveOfPacked(c, zero, capacity);
    FirstFreeOfPacked(c, zero, capacity);
    if |c.rules| < capacity {
      StoredInPacked(c, zero, capacity, x);
    }
    assert x in Packed(c, zero, capacity).Live() <==> c.Shows(x, zero, capacity);
    assert Packed(c, zero, capacity).size == |c.rules| + c.stored;
    hide Packed, FirstFree, Content.Shows, Content.Spares, Table.Live;
  }

  lemma StoredInPacked(c: Content, zero: Item, capacity: nat, x: Item)
    requires |c.rules| < capacity
    ensures Packed(c, zero, capacity).slots[|c.rules| := x] ==
            Packed(Content(c.rules, x, c.stored), zero, capacity).slots
    ensures Packed(Content(c.rules, x, c.stored), zero, capacity).slots ==
            Packed(Content(c.rules + [x], zero, c.stored), zero, capacity).slots
  {
  }

  lemma RulesStep(xs: seq<Item>)
    requires xs != []
    ensures var init, x := xs[..|xs| - 1], xs[|xs| - 1];
            Rules(xs) == if IsFree(x) || x in Rules(init) then Rules(init) else Rules(init) + [x]
  {
    hide Distinct;
    var init, x := xs[..|xs| - 1], xs[|xs| - 1];
    if !IsFree(x) {
      assert NonZero(xs)[..|NonZero(xs)| - 1] == NonZero(init);
      DistinctStep(NonZero(xs));
    }
  }

  /** The rule at index `i` is searched for behind the end of the table. */
  predicate OverrunAt(xs: seq<Item>, i: nat, zero: Item, capacity: nat)
    requires i < |xs|
  {
    Summary(xs[..i], zero, capacity).Overruns(xs[i], zero, capacity)
  }

  ghost predicate Overrun(xs: seq<Item>, zero: Item, capacity: nat) {
    exists i | 0 <= i < |xs| :: OverrunAt(xs, i, zero, capacity)
  }

  lemma OverrunUnfold(xs: seq<Item>, zero: Item, capacity: nat)
    requires xs != []
    ensures var init := xs[..|xs| - 1];
            Overrun(xs, zero, capacity) <==>
            Overrun(init, zero, capacity) || Summary(init, zero, capacity).Overruns(xs[|xs| - 1], zero, capacity)
  {
    hide Summary, Content.Overruns;
    var init := xs[..|xs| - 1];
    forall i | 0 <= i < |init|
      ensures OverrunAt(xs, i, zero, capacity) <==> OverrunAt(init, i, zero, capacity)
    {
      assert xs[..i] == init[..i];
    }
    assert OverrunAt(xs, |xs| - 1, zero, capacity) <==>
      Summary(init, zero, capacity).Overruns(xs[|xs| - 1], zero, capacity);
    hide OverrunAt;
  }

  /** The table after any run of any rules, and exactly which runs read past its end. */
  lemma {:induction false} RunClosedForm(zero: Item, capacity: nat, xs: seq<Item>)
    requires IsFree(zero)
    ensures Run(Empty(zero, capacity), xs) ==
            if Overrun(xs, zero, capacity) then None
            else Some(Packed(Summary(xs, zero, capacity), zero, capacity))
    ensures Summary(xs, zero, capacity).IsSound(capacity)
  {
    if xs == [] {
      assert Packed(Content([], zero, 0), zero, capacity) == Empty(zero, capacity);
    } else {
      var init, x := xs[..|xs| - 1], xs[|xs| - 1];
      RunClosedForm(zero, capacity, init);
      OverrunUnfold(xs, zero, capacity);
      ReceivePacked(Summary(init, zero, capacity), zero, capacity, x);
      hide Overrun, Packed, Receive;
    }
  }

  lemma AddIsCounted(rules: seq<Item>, c: Content, zero: Item, capacity: nat, x: Item)
    requires IsFree(zero) && c.IsSound(capacity) && c.rules == Take(rules, capacity)
    ensures var d := c.Add(x, zero, capacity);
            && d.IsSound(capacity)
            && d.rules == Take(if IsFree(x) || x in rules then rules else rules + [x], capacity)
            && (1 <= d.stored <==> 1 <= c.stored || (IsFree(x) && |rules| < capacity))
  {
    assert |rules| < capacity ==> c.rules == rules;
    assert forall y | y in c.Spares(zero, capacity) :: IsFree(y);
    hide Content.Spares;
    assert capacity <= |rules| ==> Take(rules + [x], capacity) == c.rules;
  }

  /**
    The rules kept are the first distinct ones in arrival order; and something that looks like an unused slot
    has been counted exactly when such a rule arrived while there was room.
   */
  lemma {:induction false} SummaryIsCounted(zero: Item, capacity: nat, xs: seq<Item>)
    requires IsFree(zero)
    ensures var c := Summary(xs, zero, capacity);
            && c.rules == Take(Rules(xs), capacity)
            && (1 <= c.stored <==> FreeStored(xs, capacity))
            && c.IsSound(capacity)
  {
    if xs != [] {
      var init, x := xs[..|xs| - 1], xs[|xs| - 1];
      SummaryIsCounted(zero, capacity, init);
      RulesStep(xs);
      hide Rules;
      AddIsCounted(Rules(init), Summary(init, zero, capacity), zero, capacity, x);
      hide Content.Add, Content.IsSound;
    }
  }

  lemma {:induction false} OnlyZeroSummary(zero: Item, capacity: nat, xs: seq<Item>)
    requires IsFree(zero) && OnlyZeroIsFree(xs, zero)
    ensures Summary(xs, zero, capacity) ==
            Content(Take(Rules(xs), capacity), zero, if FreeStored(xs, capacity) then 1 else 0)
  {
    SummaryIsCounted(zero, capacity, xs);
    if xs != [] {
      var init, x := xs[..|xs| - 1], xs[|xs| - 1];
      assert xs == init + [x];
      OnlyZeroSummary(zero, capacity, init);
      SummaryIsCounted(zero, capacity, init);
      hide Rules;
    }
  }

  /**
    When zero is the only rule received that looks like an unused slot, as it always is for protocols, a run
    reads past the table exactly if zero is counted, other rules then take every slot, and an absent rule comes.
   */
  lemma RunLeavesTableIff(zero: Item, capacity: nat, xs: seq<Item>)
    requires IsFree(zero) && OnlyZeroIsFree(xs, zero)
    ensures Run(Empty(zero, capacity), xs).None? <==>
            exists i | 0 <= i < |xs| :: ComesTooLate(xs, i, capacity)
  {
    RunClosedForm(zero, capacity, xs);
    forall i | 0 <= i < |xs|
      ensures OverrunAt(xs, i, zero, capacity) <==> ComesTooLate(xs, i, capacity)
    {
      OnlyZeroSummary(zero, capacity, xs[..i]);
      hide Rules, FreeStored;
    }
    hide OverrunAt, ComesTooLate;
  }

  /** A rule that looks unused was counted, other rules have taken every slot, and `xs[i]` is none of them. */
  predicate ComesTooLate(xs: seq<Item>, i: nat, capacity: nat)
    requires i < |xs|
  {
    && FreeStored(xs[..i], capacity)
    && capacity <= |Rules(xs[..i])|
    && xs[i] !in Take(Rules(xs[..i]), capacity)
  }

  /** Protocols 0, 1 and 2 are enough to leave a table of one slot. */
  lemma ThreeProtocolsLeaveTable()
    ensures Run(Empty(Protocol(0), 1), [Protocol(0), Protocol(1), Protocol(2)]) == None
  {
    ThreeRulesLeaveTable(Protocol(0), Protocol(0), Protocol(1), Protocol(2));
  }

  /** So are three port rules of which none is the zero rule. */
  lemma MaskedZeroPortRuleLeavesTable()
    ensures Run(Empty(Ports(0, 0, 0, 0), 1),
                [Ports(0, 0, 0xFFFF, 0), Ports(80, 80, 0, 0), Ports(81, 81, 0, 0)]) == None
  {
    ThreeRulesLeaveTable(Ports(0, 0, 0, 0), Ports(0, 0, 0xFFFF, 0), Ports(80, 80, 0, 0), Ports(81, 81, 0, 0));
  }

  lemma ThreeRulesLeaveTable(zero: Item, free: Item, x: Item, y: Item)
    requires IsFree(zero) && IsFree(free) && !IsFree(x) && !IsFree(y) && x != y
    ensures Run(Empty(zero, 1), [free, x, y]) == None
  {
    var xs := [free, x, y];
    RunClosedForm(zero, 1, xs);
    SummaryOfTwo(zero, free, x);
    hide Run, Packed, Summary, Content.IsSound;
    assert xs[..2] == [free, x];
    assert Content([x], zero, 1).Overruns(y, zero, 1);
    hide Content.Overruns;
    assert OverrunAt(xs, 2, zero, 1);
  }

  lemma SummaryOfTwo(zero: Item, free: Item, x: Item)
    requires IsFree(free) && !IsFree(x)
    ensures Summary([free, x], zero, 1) == Content([x], zero, 1)
  {
    assert [free, x][..1] == [free] && [free][..0] == [];
    assert Content([], zero, 0).Add(free, zero, 1) == Content([], free, 1);
    assert Content([], free, 1).Add(x, zero, 1) == Content([] + [x], zero, 1);
    hide Content.Add;
    assert Summary([free], zero, 1) == Summary([], zero, 1).Add(free, zero, 1);
  }

  lemma {:induction false} NothingFree(xs: seq<Item>, capacity: nat)
    requires forall x | x in xs :: !IsFree(x)
    ensures NonZero(xs) == xs && !FreeStored(xs, capacity)
  {
    if xs != [] {
      var init := xs[..|xs| - 1];
      assert xs == init + [xs[|xs| - 1]];
      NothingFree(init, capacity);
      hide Distinct;
    }
  }

  /**
    Without zero rules the live slots are the first `capacity` distinct rules in arrival order and all
    slots beyond the count are unused. One port that is not zero is enough.
   */
  lemma RunWithoutZero(zero: Item, capacity: nat, xs: seq<Item>)
    requires if zero.Protocol? then zero.code == 0 else zero.src == 0 && zero.dst == 0
    requires forall x | x in xs :: if x.Protocol? then x.code != 0 else x.src != 0 || x.dst != 0
    ensures var kept := Take(Distinct(xs), capacity);
            Run(Empty(zero, capacity), xs) ==
            Some(Table(kept + Repeat(zero, capacity - |kept|), |kept|))
  {
    hide Run, Distinct, FreeStored, ComesTooLate, Summary, Overrun, Packed, Content.IsSound;
    RunClosedForm(zero, capacity, xs);
    RunLeavesTableIff(zero, capacity, xs);
    OnlyZeroSummary(zero, capacity, xs);
    NothingFree(xs, capacity);
    forall i | 0 <= i < |xs|
      ensures !ComesTooLate(xs, i, capacity)
    {
      NothingComesTooLate(xs, i, capacity);
    }
    PackedWithoutSpare(Take(Distinct(xs), capacity), zero, capacity);
  }

  lemma NothingComesTooLate(xs: seq<Item>, i: nat, capacity: nat)
    requires i < |xs| && forall x | x in xs :: !IsFree(x)
    ensures !ComesTooLate(xs, i, capacity)
  {
    NothingFree(xs[..i], capacity);
    hide Rules, FreeStored;
  }

  lemma PackedWithoutSpare(kept: seq<Item>, zero: Item, capacity: nat)
    requires |kept| <= capacity
    ensures Packed(Content(kept, zero, 0), zero, capacity) == Table(kept + Repeat(zero, capacity - |kept|), |kept|)
  {
  }

  /** Receiving rules again that were received before changes nothing, even when the table overflowed. */
  lemma ReplayChangesNothing(zero: Item, capacity: nat, xs: seq<Item>, ys: seq<Item>)
    requires if zero.Protocol? then zero.code == 0 else zero.src == 0 && zero.dst == 0
    requires forall x | x in xs :: if x.Protocol? then x.code != 0 else x.src != 0 || x.dst != 0
    requires forall y | y in ys :: y in xs
    ensures Run(Empty(zero, capacity), xs + ys) == Run(Empty(zero, capacity), xs)
  {
    hide Run, Distinct;
    RunWithoutZero(zero, capacity, xs);
    RunWithoutZero(zero, capacity, xs + ys);
    DistinctIgnoresRepeats(xs, ys);
  }

  function Elements(s: seq<Item>): set<Item> { set x | x in s }

  function FreeElements(s: seq<Item>): set<Item> { set x | x in s && IsFree(x) }

  /**
    The run stays within the table, there is a slot for each rule that does not look like an unused slot,
    and the rules that do and that are live in the end are the ones received.
   */
  ghost predicate KeepsEverything(xs: seq<Item>, zero: Item, capacity: nat) {
    && !Overrun(xs, zero, capacity)
    && |Rules(xs)| <= capacity
    && Elements(Summary(xs, zero, capacity).Spares(zero, capacity)) == FreeElements(xs)
  }

  /** The live slots hold exactly the received rules, whatever these are, in exactly that case. */
  lemma RunKeepsEverythingIff(zero: Item, capacity: nat, xs: seq<Item>)
    requires IsFree(zero)
    ensures var r := Run(Empty(zero, capacity), xs);
            r.Some? && Elements(r.value.Live()) == Elements(xs) <==> KeepsEverything(xs, zero, capacity)
  {
    RunClosedForm(zero, capacity, xs);
    SummaryIsCounted(zero, capacity, xs);
    hide Run, Overrun, Summary, FreeStored;
    var c := Summary(xs, zero, capacity);
    var kept, spares := Take(Rules(xs), capacity), c.Spares(zero, capacity);
    LiveOfPacked(c, zero, capacity);
    assert forall x | x in spares :: IsFree(x);
    TakeOfDistinct(NonZero(xs), capacity);
    ElementsSplit(kept, spares, xs, capacity);
    hide Packed;
  }

  /** A shortened list of distinct elements lacks one. */
  lemma TakeOfDistinct(xs: seq<Item>, n: nat)
    ensures (forall x | x in Distinct(xs) :: x in Take(Distinct(xs), n)) <==> |Distinct(xs)| <= n
  {
    var d := Distinct(xs);
    hide Distinct;
    assert n < |d| ==> d[n] !in Take(d, n);
  }

  lemma ElementsSplit(kept: seq<Item>, spares: seq<Item>, xs: seq<Item>, capacity: nat)
    requires forall x | x in kept :: !IsFree(x) && x in xs
    requires forall x | x in spares :: IsFree(x)
    ensures Elements(kept + spares) == Elements(xs) <==>
            (forall x | x in Rules(xs) :: x in kept) && Elements(spares) == FreeElements(xs)
  {
    assert forall x :: x in Rules(xs) <==> x in xs && !IsFree(x);
    hide Rules;
    if Elements(kept + spares) == Elements(xs) {
      forall x
        ensures x in xs <==> x in kept || x in spares
      {
        assert x in Elements(kept + spares) <==> x in Elements(xs);
      }
    }
    if (forall x | x in Rules(xs) :: x in kept) && Elements(spares) == FreeElements(xs) {
      forall x
        ensures x in Elements(kept + spares) <==> x in Elements(xs)
      {
        assert x in Elements(spares) <==> x in FreeElements(xs);
      }
    }
  }

  lemma {:induction false} DistinctCount(zero: Item, xs: seq<Item>)
    requires IsFree(zero) && OnlyZeroIsFree(xs, zero)
    ensures |Distinct(xs)| == |Rules(xs)| + if zero in xs then 1 else 0
  {
    if xs != [] {
      var init, x := xs[..|xs| - 1], xs[|xs| - 1];
      assert xs == init + [x];
      DistinctCount(zero, init);
      RulesStep(xs);
      hide Distinct, NonZero;
      DistinctStep(xs);
    }
  }

  /** With at most `capacity` distinct rules zero is counted whenever it arrives, and no rule comes too late. */
  lemma {:induction false} FewRules(zero: Item, capacity: nat, xs: seq<Item>)
    requires IsFree(zero) && OnlyZeroIsFree(xs, zero)
    requires |Distinct(xs)| <= capacity
    ensures forall i | 0 <= i < |xs| :: !ComesTooLate(xs, i, capacity)
    ensures FreeStored(xs, capacity) <==> zero in xs
  {
    if xs != [] {
      var init, x := xs[..|xs| - 1], xs[|xs| - 1];
      assert xs == init + [x];
      FewRules(zero, capacity, init);
      DistinctCount(zero, init);
      forall i | 0 <= i < |init|
        ensures !ComesTooLate(xs, i, capacity)
      {
        assert xs[..i] == init[..i];
        assert !ComesTooLate(init, i, capacity);
      }
      hide Rules;
      assert !ComesTooLate(xs, |init|, capacity);
      hide ComesTooLate;
    }
  }

  /** Where zero is the only such rule, everything is kept exactly when the distinct rules are no more than the slots. */
  lemma DistinctRulesAreKeptIff(zero: Item, capacity: nat, xs: seq<Item>)
    requires IsFree(zero) && OnlyZeroIsFree(xs, zero)
    ensures KeepsEverything(xs, zero, capacity) <==> |Distinct(xs)| <= capacity
    ensures var r := Run(Empty(zero, capacity), xs);
            |Distinct(xs)| <= capacity ==> r.Some? && r.value.size == |Distinct(xs)|
  {
    RunClosedForm(zero, capacity, xs);
    RunLeavesTableIff(zero, capacity, xs);
    OnlyZeroSummary(zero, capacity, xs);
    DistinctCount(zero, xs);
    hide Run, Overrun, ComesTooLate, FreeStored, Distinct, Rules, Summary;
    assert FreeElements(xs) == if zero in xs then {zero} else {};
    var spares := Summary(xs, zero, capacity).Spares(zero, capacity);
    assert spares == if |Rules(xs)| < capacity && FreeStored(xs, capacity) then [zero] else [];
    hide Content.Spares;
    if |Distinct(xs)| <= capacity {
      FewRules(zero, capacity, xs);
      assert Elements(spares) == FreeElements(xs);
    } else if zero in xs && |Rules(xs)| == capacity {
      assert zero !in Elements(spares);
    }
  }

  /**
    For protocol codes of any kind: the live slots hold exactly the received codes if and only if at most
    `capacity` distinct ones were received, and the count is then their number.
   */
  lemma ProtocolsAreKeptIff(capacity: nat, xs: seq<Item>)
    requires forall x | x in xs :: x.Protocol?
    ensures var r := Run(Empty(Protocol(0), capacity), xs);
            && (r.Some? && (forall x :: x in r.value.Live() <==> x in xs) <==> |Distinct(xs)| <= capacity)
            && (|Distinct(xs)| <= capacity ==> r.Some? && r.value.size == |Distinct(xs)|)
  {
    assert OnlyZeroIsFree(xs, Protocol(0));
    hide Run, Distinct, KeepsEverything, OnlyZeroIsFree, Table.Live;
    RunKeepsEverythingIff(Protocol(0), capacity, xs);
    DistinctRulesAreKeptIff(Protocol(0), capacity, xs);
    var r := Run(Empty(Protocol(0), capacity), xs);
    if r.Some? {
      ElementsAreMembers(r.value.Live(), xs);
    }
  }

  lemma ElementsAreMembers(s: seq<Item>, t: seq<Item>)
    ensures Elements(s) == Elements(t) <==> forall x :: x in s <==> x in t
  {
    if Elements(s) == Elements(t) {
      assert forall x :: x in s <==> x in Elements(s);
      assert forall x :: x in t <==> x in Elements(t);
    }
  }

  // Port rules whose ports are both zero but whose masks are not.

  /** Unused slots come after the first free-looking slot, and every slot before it is counted. */
  predicate Layout(t: Table, zero: Item) {
    var k := FirstFree(t.slots, 0);
    && k <= t.size
    && forall j | k < j < |t.slots| :: t.slots[j] == zero
  }

  lemma ReceiveKeepsLayout(t: Table, zero: Item, x: Item)
    requires IsFree(zero) && Layout(t, zero) && Receive(t, x).Some?
    ensures Layout(Receive(t, x).value, zero)
  {
    var k := FirstFree(t.slots, 0);
    if x !in t.Live() && k < |t.slots| {
      var slots := t.slots[k := x];
      var next := FirstFree(slots, 0);
      assert forall j | 0 <= j < k :: !IsFree(slots[j]);
      assert k <= next;
      if k + 1 < |t.slots| {
        assert slots[k + 1] == zero;
        assert next <= k + 1;
      }
    }
  }

  /** Every run keeps the layout, whatever the rules are. */
  lemma {:induction false} RunKeepsLayout(zero: Item, capacity: nat, xs: seq<Item>)
    requires IsFree(zero) && Run(Empty(zero, capacity), xs).Some?
    ensures var t := Run(Empty(zero, capacity), xs).value;
            Layout(t, zero) && |t.slots| == capacity
  {
    if xs == [] {
      assert 0 < capacity ==> IsFree(Empty(zero, capacity).slots[0]);
    } else {
      RunKeepsLayout(zero, capacity, xs[..|xs| - 1]);
      ReceiveKeepsLayout(Run(Empty(zero, capacity), xs[..|xs| - 1]).value, zero, xs[|xs| - 1]);
    }
  }

  /**
    A received rule leaves every live rule live exactly when it is live already, or the table is full,
    or the slot it goes to is not counted, or that slot holds the zero rule and another slot follows.
   */
  lemma ReceiveKeepsLiveRulesIff(t: Table, zero: Item, x: Item)
    requires IsFree(zero) && Layout(t, zero) && Receive(t, x).Some?
    ensures var k := FirstFree(t.slots, 0);
            (forall y | y in t.Live() :: y in Receive(t, x).value.Live()) <==>
            || x in t.Live()
            || k == |t.slots|
            || t.size <= k
            || (t.slots[k] == zero && k + 1 < |t.slots|)
  {
    var k := FirstFree(t.slots, 0);
    if x !in t.Live() && k < |t.slots| {
      var live, next := t.Live(), Receive(t, x).value.Live();
      assert forall j | 0 <= j < |live| && j != k :: next[j] == live[j];
      if k < t.size {
        assert t.slots[k] in live by { assert live[k] == t.slots[k]; }
        if t.slots[k] == zero && k + 1 < |t.slots| {
          assert next[k + 1] == zero;
        } else {
          assert forall j | 0 <= j < |next| :: next[j] != t.slots[k];
        }
      }
    }
  }

  /** The masks of a rule for port zero are lost as soon as another rule arrives. */
  lemma MaskedZeroPortRuleIsLost()
    ensures var zero, masked, other := Ports(0, 0, 0, 0), Ports(0, 0, 0xFFFF, 0), Ports(80, 80, 0, 0);
            Run(Empty(zero, 2), [masked, other]) == Some(Table([other, zero], 2))
  {
    var zero, masked, other := Ports(0, 0, 0, 0), Ports(0, 0, 0xFFFF, 0), Ports(80, 80, 0, 0);
    assert [masked, other][..1] == [masked] && [masked][..0] == [];
    assert Empty(zero, 2) == Table([zero, zero], 0);
    assert Receive(Table([zero, zero], 0), masked) == Some(Table([masked, zero], 1)) by {
      assert [zero, zero][0 := masked] == [masked, zero];
    }
    assert Receive(Table([masked, zero], 1), other) == Some(Table([other, zero], 2)) by {
      assert [masked, zero][0 := other] == [other, zero];
    }
    hide Receive;
    assert Run(Empty(zero, 2), []) == Some(Table([zero, zero], 0));
    assert Run(Empty(zero, 2), [masked]) == Receive(Table([zero, zero], 0), masked);
  }
}
