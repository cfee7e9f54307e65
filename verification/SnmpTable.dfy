/** The table of SNMP responses as a bounded map that keeps the order of insertion. */
module SnmpTable {
  import opened Sequences
  import opened Wrappers
  import opened Devices

  type Bytes = seq<uint8>

  /** The bytes of a C string up to its terminator. */
  type CString = Bytes

  datatype Entry = Entry(oid: CString, oidSize: uint16, res: Bytes, resSize: uint16)

  datatype Operation = Create(entry: Entry) | Delete(oid: CString) | Unknown

  /** The position of the entry for `oid`, or the number of entries when there is none. */
  function Find(t: seq<Entry>, oid: CString): (i: nat)
    ensures i <= |t|
    ensures i < |t| ==> t[i].oid == oid
    ensures forall j | 0 <= j < i :: t[j].oid != oid
  {
    if t == [] then 0
    else
      var i := Find(t[..|t| - 1], oid);
      if i < |t| - 1 || t[|t| - 1].oid == oid then i else |t|
  }

  /** The live entries after one operation. */
  function Apply(t: seq<Entry>, op: Operation, capacity: nat): seq<Entry> {
    match op
    case Create(e) =>
      var i := Find(t, e.oid);
      if i < |t| then t[i := e] else if |t| < capacity then t + [e] else t
    case Delete(oid) =>
      var i := Find(t, oid);
      if i < |t| then t[..i] + t[i + 1..] else t
    case Unknown => t
  }

  function Run(ops: seq<Operation>, capacity: nat): seq<Entry> {
    if ops == [] then [] else Apply(Run(ops[..|ops| - 1], capacity), ops[|ops| - 1], capacity)
  }

  function Keys(t: seq<Entry>): (r: seq<CString>)
    ensures |r| == |t| && forall i :: 0 <= i < |t| ==> r[i] == t[i].oid
  {
    seq(|t|, i requires 0 <= i < |t| => t[i].oid)
  }

  // The simple form: a finite map together with the order of its keys.

  datatype OrderedMap = OrderedMap(order: seq<CString>, values: map<CString, Entry>)

  const NO_ENTRIES := OrderedMap([], map[])

  function Without(order: seq<CString>, oid: CString): seq<CString> {
    if order == [] then []
    else
      var init, last := order[..|order| - 1], order[|order| - 1];
      if last == oid then Without(init, oid) else Without(init, oid) + [last]
  }

  /** What an operation does to the map: insert or replace while there is room, or remove one key. */
  function Step(m: OrderedMap, op: Operation, capacity: nat): OrderedMap {
    match op
    case Create(e) =>
      if e.oid in m.values then m.(values := m.values[e.oid := e])
      else if |m.order| < capacity then OrderedMap(m.order + [e.oid], m.values[e.oid := e])
      else m
    case Delete(oid) => OrderedMap(Without(m.order, oid), m.values - {oid})
    case Unknown => m
  }

  function Steps(ops: seq<Operation>, capacity: nat): OrderedMap {
    if ops == [] then NO_ENTRIES else Step(Steps(ops[..|ops| - 1], capacity), ops[|ops| - 1], capacity)
  }

  /** `values` maps the key of each entry of `t` to that entry, and has no other keys. */
  ghost predicate HasValues(t: seq<Entry>, values: map<CString, Entry>) {
    && (forall k :: k in values <==> k in Keys(t))
    && forall i :: 0 <= i < |t| ==> values[t[i].oid] == t[i]
  }

  /** `t` lists the entries of `m` in the order of its keys, each key once. */
  ghost predicate Represents(t: seq<Entry>, m: OrderedMap) {
    NoDuplicates(Keys(t)) && m.order == Keys(t) && HasValues(t, m.values)
  }

  lemma FindDecides(t: seq<Entry>, oid: CString)
    ensures Find(t, oid) < |t| <==> oid in Keys(t)
  {
    var i := Find(t, oid);
    if i < |t| {
      assert Keys(t)[i] == oid;
    }
  }

  lemma {:induction false} WithoutAbsent(order: seq<CString>, oid: CString)
    requires oid !in order
    ensures Without(order, oid) == order
  {
    if order != [] {
      WithoutAbsent(order[..|order| - 1], oid);
    }
  }

  /** Without duplicates, leaving out a key closes the gap at its only position. */
  lemma {:induction false} WithoutClosesGap(order: seq<CString>, i: nat)
    requires NoDuplicates(order) && i < |order|
    ensures Without(order, order[i]) == order[..i] + order[i + 1..]
  {
    var n := |order| - 1;
    var init := order[..n];
    if i == n {
      WithoutAbsent(init, order[n]);
    } else {
      WithoutClosesGap(init, i);
      assert order[i + 1..] == init[i + 1..] + [order[n]];
    }
  }

  lemma CreateRefines(t: seq<Entry>, m: OrderedMap, e: Entry, capacity: nat)
    requires Represents(t, m)
    ensures Represents(Apply(t, Create(e), capacity), Step(m, Create(e), capacity))
  {
    FindDecides(t, e.oid);
    var i, next := Find(t, e.oid), Apply(t, Create(e), capacity);
    if i < |t| {
      assert Keys(next) == Keys(t);
    } else if |t| < capacity {
      assert Keys(next) == Keys(t) + [e.oid];
    }
  }

  lemma {:induction false} WithoutElements(order: seq<CString>, oid: CString)
    ensures forall k :: k in Without(order, oid) <==> k in order && k != oid
  {
    if order != [] {
      var init, last := order[..|order| - 1], order[|order| - 1];
      WithoutElements(init, oid);
      assert order == init + [last];
    }
  }

  lemma NoDuplicatesAfterGap(s: seq<CString>, i: nat)
    requires NoDuplicates(s) && i < |s|
    ensures NoDuplicates(s[..i] + s[i + 1..])
  {
    var r := s[..i] + s[i + 1..];
    assert forall j | 0 <= j < |r| :: r[j] == if j < i then s[j] else s[j + 1];
  }

  lemma KeysOfGap(t: seq<Entry>, i: nat)
    requires i < |t|
    ensures Keys(t[..i] + t[i + 1..]) == Keys(t)[..i] + Keys(t)[i + 1..]
  {
  }

  /** Closing the gap at index `i` takes one key out, and its entry was the only one for that key. */
  lemma ClosingGap(t: seq<Entry>, i: nat)
    requires NoDuplicates(Keys(t)) && i < |t|
    ensures var next := t[..i] + t[i + 1..];
            Keys(next) == Without(Keys(t), t[i].oid) && NoDuplicates(Keys(next))
  {
    hide Keys, NoDuplicates, Without;
    WithoutClosesGap(Keys(t), i);
    NoDuplicatesAfterGap(Keys(t), i);
    KeysOfGap(t, i);
  }

  lemma GapHasValues(t: seq<Entry>, i: nat, values: map<CString, Entry>)
    requires NoDuplicates(Keys(t)) && i < |t| && HasValues(t, values)
    ensures HasValues(t[..i] + t[i + 1..], values - {t[i].oid})
  {
    var next := t[..i] + t[i + 1..];
    WithoutElements(Keys(t), t[i].oid);
    ClosingGap(t, i);
    hide Without;
    forall j | 0 <= j < |next|
      ensures values[next[j].oid] == next[j] && next[j].oid != t[i].oid
    {
      var original := if j < i then j else j + 1;
      assert next[j] == t[original];
      assert Keys(t)[original] != Keys(t)[i];
    }
  }

  lemma DeleteRefines(t: seq<Entry>, m: OrderedMap, oid: CString, capacity: nat)
    requires Represents(t, m)
    ensures Represents(Apply(t, Delete(oid), capacity), Step(m, Delete(oid), capacity))
  {
    hide Without, HasValues, NoDuplicates;
    FindDecides(t, oid);
    var i := Find(t, oid);
    if i < |t| {
      ClosingGap(t, i);
      GapHasValues(t, i, m.values);
    } else {
      WithoutAbsent(Keys(t), oid);
      NoSuchValue(t, m.values, oid);
    }
  }

  lemma NoSuchValue(t: seq<Entry>, values: map<CString, Entry>, oid: CString)
    requires HasValues(t, values) && oid !in Keys(t)
    ensures values - {oid} == values
  {
  }

  lemma ApplyRefines(t: seq<Entry>, m: OrderedMap, op: Operation, capacity: nat)
    requires Represents(t, m)
    ensures Represents(Apply(t, op, capacity), Step(m, op, capacity))
  {
    hide Represents;
    match op
    case Create(e) => CreateRefines(t, m, e, capacity);
    case Delete(oid) => DeleteRefines(t, m, oid, capacity);
    case Unknown =>
  }

  /** Every run of creates and deletes keeps the table a faithful listing of the ordered map. */
  lemma {:induction false} RunRefinesOrderedMap(ops: seq<Operation>, capacity: nat)
    ensures Represents(Run(ops, capacity), Steps(ops, capacity))
  {
    if ops != [] {
      hide Represents, Apply, Step;
      var init := ops[..|ops| - 1];
      RunRefinesOrderedMap(init, capacity);
      ApplyRefines(Run(init, capacity), Steps(init, capacity), ops[|ops| - 1], capacity);
    }
  }

  lemma ApplyIsBounded(t: seq<Entry>, op: Operation, capacity: nat)
    requires |t| <= capacity
    ensures |Apply(t, op, capacity)| <= capacity
  {
  }

  /** No run puts more entries into the table than it has slots. */
  lemma {:induction false} RunIsBounded(ops: seq<Operation>, capacity: nat)
    ensures |Run(ops, capacity)| <= capacity
  {
    if ops != [] {
      hide Apply;
      RunIsBounded(ops[..|ops| - 1], capacity);
      ApplyIsBounded(Run(ops[..|ops| - 1], capacity), ops[|ops| - 1], capacity);
    }
  }

  // Runs that only create entries, as the configuration tool does.

  function Creates(es: seq<Entry>): (ops: seq<Operation>)
    ensures |ops| == |es|
  {
    seq(|es|, i requires 0 <= i < |es| => Create(es[i]))
  }

  /** The last of `es` that was written for `oid`. */
  function LastWrite(es: seq<Entry>, oid: CString): Option<Entry> {
    if es == [] then None
    else if es[|es| - 1].oid == oid then Some(es[|es| - 1])
    else LastWrite(es[..|es| - 1], oid)
  }

  /** Position `i` holds the last of `es` for `oid`. */
  predicate IsLastAt(es: seq<Entry>, oid: CString, i: nat) {
    i < |es| && es[i].oid == oid && forall j | i < j < |es| :: es[j].oid != oid
  }

  lemma {:induction false} LastWriteIsLast(es: seq<Entry>, oid: CString, i: nat)
    ensures LastWrite(es, oid).None? <==> forall j | 0 <= j < |es| :: es[j].oid != oid
    ensures IsLastAt(es, oid, i) ==> LastWrite(es, oid) == Some(es[i])
  {
    if es != [] && es[|es| - 1].oid != oid {
      LastWriteIsLast(es[..|es| - 1], oid, i);
      assert IsLastAt(es, oid, i) ==> i < |es| - 1 && IsLastAt(es[..|es| - 1], oid, i);
    }
  }

  function Lookup(t: seq<Entry>, oid: CString): Option<Entry> {
    var i := Find(t, oid);
    if i < |t| then Some(t[i]) else None
  }

  /** The keys that fit, in order of first arrival, each with the entry written last. */
  ghost predicate HoldsLastWrites(m: OrderedMap, es: seq<Entry>, capacity: nat) {
    && m.order == Take(Distinct(Keys(es)), capacity)
    && (forall k :: k in m.values <==> k in m.order)
    && forall k | k in m.values :: LastWrite(es, k) == Some(m.values[k])
  }

  lemma {:induction false} CreatesHoldLastWrites(es: seq<Entry>, capacity: nat)
    ensures HoldsLastWrites(Steps(Creates(es), capacity), es, capacity)
  {
    if es != [] {
      hide HoldsLastWrites, Step;
      var init, e := es[..|es| - 1], es[|es| - 1];
      CreatesHoldLastWrites(init, capacity);
      assert Creates(es)[..|es| - 1] == Creates(init);
      OneMoreCreate(Steps(Creates(init), capacity), init, e, capacity);
      assert es == init + [e];
    }
  }

  /** The first `capacity` distinct keys after one more key has arrived. */
  lemma OneMoreKey(keys: seq<CString>, k: CString, capacity: nat)
    ensures var order := Take(Distinct(keys), capacity);
            Take(Distinct(keys + [k]), capacity) ==
            if k in order || capacity <= |order| then order else order + [k]
  {
    var seen := Distinct(keys);
    assert (keys + [k])[..|keys|] == keys;
    DistinctStep(keys + [k]);
    hide Distinct;
    if |seen| < capacity {
      assert Take(seen, capacity) == seen;
      assert |seen + [k]| <= capacity;
    } else {
      TakeOfSum(seen, [k], capacity);
      assert forall x | x in Take(seen, capacity) :: x in seen;
    }
  }

  lemma OneMoreCreate(m: OrderedMap, es: seq<Entry>, e: Entry, capacity: nat)
    requires HoldsLastWrites(m, es, capacity)
    ensures HoldsLastWrites(Step(m, Create(e), capacity), es + [e], capacity)
  {
    hide Distinct;
    OneMoreKey(Keys(es), e.oid, capacity);
    assert Keys(es + [e]) == Keys(es) + [e.oid];
    assert (es + [e])[..|es|] == es;
  }

  /**
    After any list of creates the keys are the first `capacity` distinct ones in order of arrival, and
    every key that is held shows the entry written last for it.
   */
  lemma CreatesAreLastWriteWins(es: seq<Entry>, capacity: nat, oid: CString)
    ensures var t := Run(Creates(es), capacity);
            && Keys(t) == Take(Distinct(Keys(es)), capacity)
            && Lookup(t, oid) == if oid in Take(Distinct(Keys(es)), capacity) then LastWrite(es, oid) else None
  {
    hide Distinct;
    var t := Run(Creates(es), capacity);
    RunRefinesOrderedMap(Creates(es), capacity);
    CreatesHoldLastWrites(es, capacity);
    FindDecides(t, oid);
  }

  // What one operation does, key by key.

  lemma LookupIs(t: seq<Entry>, k: CString)
    ensures Lookup(t, k).None? <==> k !in Keys(t)
    ensures Lookup(t, k).Some? ==> Lookup(t, k).value.oid == k && Lookup(t, k).value in t
  {
    FindDecides(t, k);
  }

  lemma LookupAt(t: seq<Entry>, i: nat)
    requires i < |t| && NoDuplicates(Keys(t))
    ensures Lookup(t, t[i].oid) == Some(t[i])
  {
    var f := Find(t, t[i].oid);
    assert Keys(t)[f] == Keys(t)[i];
  }

  /**
    A created entry is found under its key afterwards, unless the key is new and the table is full; every
    other key shows what it showed before, and a new key comes last.
   */
  lemma CreateIsFound(t: seq<Entry>, e: Entry, capacity: nat, k: CString)
    requires NoDuplicates(Keys(t))
    ensures var r := Apply(t, Create(e), capacity);
            && Lookup(r, k) == (if k == e.oid && (k in Keys(t) || |t| < capacity) then Some(e) else Lookup(t, k))
            && Keys(r) == if e.oid in Keys(t) || capacity <= |t| then Keys(t) else Keys(t) + [e.oid]
  {
    var i, r := Find(t, e.oid), Apply(t, Create(e), capacity);
    FindDecides(t, e.oid);
    KeepsKeysDistinct(t, Create(e), capacity);
    if i < |t| {
      assert Keys(r) == Keys(t);
      OtherEntriesStay(t, r, k, e.oid);
      LookupAt(r, i);
    } else if |t| < capacity {
      assert Keys(r) == Keys(t) + [e.oid];
      OtherEntriesStay(t, r, k, e.oid);
      LookupAt(r, |t|);
    }
  }

  /** Where two tables have the same entries apart from one key, they show the same for every other key. */
  lemma OtherEntriesStay(t: seq<Entry>, r: seq<Entry>, k: CString, oid: CString)
    requires NoDuplicates(Keys(t)) && NoDuplicates(Keys(r))
    requires forall e: Entry | e.oid != oid :: e in t <==> e in r
    ensures k != oid ==> Lookup(r, k) == Lookup(t, k)
  {
    if k != oid {
      LookupIs(t, k);
      LookupIs(r, k);
      assert Lookup(r, k).Some? ==> Lookup(r, k).value in t;
      assert forall j | 0 <= j < |t| :: t[j].oid == Keys(t)[j];
      if Lookup(t, k).Some? {
        var j :| 0 <= j < |r| && r[j] == Lookup(t, k).value;
        LookupAt(r, j);
      }
    }
  }

  /** A deleted key is not found any more; all other keys keep their entries and their order. */
  lemma DeleteIsGone(t: seq<Entry>, oid: CString, capacity: nat, k: CString)
    requires NoDuplicates(Keys(t))
    ensures var r := Apply(t, Delete(oid), capacity);
            && Lookup(r, k) == (if k == oid then None else Lookup(t, k))
            && (oid !in Keys(t) ==> r == t)
            && (oid in Keys(t) ==>
                  exists i | 0 <= i < |t| :: t[i].oid == oid && r == t[..i] + t[i + 1..])
  {
    var i, r := Find(t, oid), Apply(t, Delete(oid), capacity);
    FindDecides(t, oid);
    KeepsKeysDistinct(t, Delete(oid), capacity);
    LookupIs(r, oid);
    if i < |t| {
      GapEntries(t, i);
      OtherEntriesStay(t, r, k, oid);
    }
  }

  lemma GapEntries(t: seq<Entry>, i: nat)
    requires NoDuplicates(Keys(t)) && i < |t|
    ensures var r := t[..i] + t[i + 1..];
            (forall e: Entry | e.oid != t[i].oid :: e in t <==> e in r) && t[i].oid !in Keys(r)
  {
    var r := t[..i] + t[i + 1..];
    assert t == t[..i] + [t[i]] + t[i + 1..];
    forall j | 0 <= j < |r|
      ensures r[j].oid != t[i].oid
    {
      var original := if j < i then j else j + 1;
      assert r[j] == t[original] && Keys(t)[original] != Keys(t)[i];
    }
  }

  /** Deleting what was just created for a new key undoes the creation. */
  lemma DeleteUndoesCreate(t: seq<Entry>, e: Entry, capacity: nat)
    requires e.oid !in Keys(t)
    ensures Apply(Apply(t, Create(e), capacity), Delete(e.oid), capacity) == t
  {
    FindDecides(t, e.oid);
    if |t| < capacity {
      var r := t + [e];
      assert forall j | 0 <= j < |t| :: r[j].oid == Keys(t)[j];
      assert r[..|t|] == t;
    }
  }

  /** The array behind the table. A slot without an OID is unused. */
  class SnmpDb {
    const slots: array<Option<Entry>>
    var size: nat

    /** The slots in use are those below `size`. */
    ghost predicate Shape()
      reads this, slots
    {
      && size <= slots.Length
      && (forall i | 0 <= i < size :: slots[i].Some?)
      && (forall i | size <= i < slots.Length :: slots[i].None?)
    }

    ghost predicate Valid()
      reads this, slots
    {
      Shape() && NoDuplicates(Keys(Contents()))
    }

    ghost function Contents(): (t: seq<Entry>)
      requires Shape()
      reads this, slots
      ensures |t| == size && forall i :: 0 <= i < size ==> Some(t[i]) == slots[i]
    {
      seq(size, i requires 0 <= i < size && Shape() reads this, slots => slots[i].value)
    }

    constructor (capacity: nat)
      ensures Valid() && fresh(slots) && slots.Length == capacity
      ensures Contents() == []
    {
      slots := new Option<Entry>[capacity](_ => None);
      size := 0;
    }

    method GetFreeIndex() returns (index: int)
      requires Shape()
      ensures index == if size < slots.Length then size else -1
    {
      for i := 0 to slots.Length
        invariant i <= size
      {
        if slots[i].None? {
          return i;
        }
      }
      return -1;
    }

    method GetIndex(oid: CString) returns (index: int)
      requires Shape()
      ensures index == if Find(Contents(), oid) < size then Find(Contents(), oid) else -1
    {
      for i := 0 to size
        invariant forall j | 0 <= j < i :: Contents()[j].oid != oid
      {
        if slots[i].value.oid == oid {
          FindFirst(Contents(), oid, i);
          return i;
        }
      }
      return -1;
    }

    /** Overwrites one slot in use. */
    method Replace(index: nat, e: Entry)
      requires Shape() && index < size
      modifies slots
      ensures Shape() && Contents() == old(Contents())[index := e]
    {
      slots[index] := Some(e);
    }

    /** Takes the first free slot into use. */
    method Append(index: nat, e: Entry)
      requires Shape() && index == size < slots.Length
      modifies this, slots
      ensures Shape() && Contents() == old(Contents()) + [e]
    {
      slots[index] := Some(e);
      size := size + 1;
    }

    /** Moves every later entry down by one slot and clears the last one. */
    method CloseGap(index: nat)
      requires Shape() && index < size
      modifies this, slots
      ensures Shape() && Contents() == old(Contents())[..index] + old(Contents())[index + 1..]
    {
      ghost var before := Contents();
      var i := index;
      while i < size - 1
        invariant index <= i < size == |before| <= slots.Length
        invariant forall j | 0 <= j < index || i <= j < size :: slots[j] == Some(before[j])
        invariant forall j | index <= j < i :: slots[j] == Some(before[j + 1])
        invariant forall j | size <= j < slots.Length :: slots[j].None?
      {
        slots[i] := slots[i + 1];
        i := i + 1;
      }
      slots[i] := None;
      size := size - 1;
    }

    method CreateEntry(e: Entry)
      requires Shape()
      modifies this, slots
      ensures Shape() && Contents() == Apply(old(Contents()), Create(e), slots.Length)
    {
      var index := GetIndex(e.oid);
      if index != -1 {
        Replace(index, e);
      } else {
        index := GetFreeIndex();
        if index != -1 {
          Append(index, e);
        }
      }
    }

    method DeleteEntry(oid: CString)
      requires Shape()
      modifies this, slots
      ensures Shape() && Contents() == Apply(old(Contents()), Delete(oid), slots.Length)
    {
      var index := GetIndex(oid);
      if index != -1 {
        CloseGap(index);
      }
    }

    /** Creates, replaces or deletes one entry. The return value does not tell whether it did. */
    method RecvAgentConfig(op: Operation) returns (ret: int)
      requires Valid()
      modifies this, slots
      ensures Valid() && Contents() == Apply(old(Contents()), op, slots.Length)
      ensures op.Unknown? ==> Contents() == old(Contents())
      ensures ret == 0
    {
      KeepsKeysDistinct(Contents(), op, slots.Length);
      match op {
        case Create(e) => CreateEntry(e);
        case Delete(oid) => DeleteEntry(oid);
        case Unknown =>
      }
      return 0;
    }
  }

  lemma {:induction false} FindFirst(t: seq<Entry>, oid: CString, i: nat)
    requires i < |t| && t[i].oid == oid
    requires forall j | 0 <= j < i :: t[j].oid != oid
    ensures Find(t, oid) == i
  {
    var found := Find(t, oid);
    if i < |t| - 1 {
      FindFirst(t[..|t| - 1], oid, i);
    }
  }

  ghost function ValuesOf(t: seq<Entry>): (values: map<CString, Entry>)
    requires NoDuplicates(Keys(t))
    ensures HasValues(t, values)
  {
    if t == [] then map[]
    else
      var init, last := t[..|t| - 1], t[|t| - 1];
      assert Keys(t) == Keys(init) + [last.oid];
      ValuesOf(init)[last.oid := last]
  }

  /** Distinct keys stay distinct under every operation. */
  lemma KeepsKeysDistinct(t: seq<Entry>, op: Operation, capacity: nat)
    requires NoDuplicates(Keys(t))
    ensures NoDuplicates(Keys(Apply(t, op, capacity)))
  {
    var values := ValuesOf(t);
    ApplyRefines(t, OrderedMap(Keys(t), values), op, capacity);
  }
}
