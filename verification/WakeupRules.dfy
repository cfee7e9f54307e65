/** The three wake-up rule tables and the command that stores one received rule. */
module WakeupRules {
  import opened Sequences
  import opened Wrappers
  import opened Devices
  import opened FilterTables
  import ProtocolNames

  const NO_INDEX := -1
  const ZERO_PROTOCOL := Protocol(0)
  const ZERO_PORTS := Ports(0, 0, 0, 0)

  class FilterTable {
    const slots: array<Item>
    var size: nat

    ghost function State(): Table
      reads this, slots
    {
      Table(slots[..], size)
    }

    constructor (zero: Item, capacity: nat)
      ensures fresh(slots) && State() == Empty(zero, capacity)
    {
      slots := new Item[capacity](_ => zero);
      size := 0;
      new;
      assert slots[..] == Repeat(zero, capacity);
    }

    /** The first slot that looks unused: the one with code zero, or with both ports zero. */
    method GetFreeIndex() returns (index: int)
      ensures index == NO_INDEX || 0 <= index < slots.Length
      ensures index != NO_INDEX ==>
                if slots[index].Protocol? then slots[index].code == 0
                else slots[index].src == 0 && slots[index].dst == 0
      ensures forall i | 0 <= i < if index == NO_INDEX then slots.Length else index ::
                if slots[i].Protocol? then slots[i].code != 0 else slots[i].src != 0 || slots[i].dst != 0
      ensures index == if FirstFree(slots[..], 0) < slots.Length then FirstFree(slots[..], 0) else NO_INDEX
    {
      for i := 0 to slots.Length
        invariant FirstFree(slots[..], 0) == FirstFree(slots[..], i)
      {
        if IsFree(slots[i]) {
          return i;
        }
      }
      return NO_INDEX;
    }

    /**
      The first counted slot that holds `x`. All counted slots before it are read; `outside` reports that the
      next one to read lies behind the array.
     */
    method GetIndex(x: Item) returns (index: int, outside: bool)
      ensures outside <==> x !in State().Live() && slots.Length < size
      ensures index == NO_INDEX <==> x !in State().Live()
      ensures index != NO_INDEX ==> 0 <= index < size && index < slots.Length && slots[index] == x
      ensures forall j | 0 <= j < index :: State().Live()[j] != x
    {
      ghost var live := State().Live();
      assert live[..|live|] == live;
      for i := 0 to size
        invariant i <= |live| && x !in live[..i]
      {
        if i == slots.Length {
          return NO_INDEX, true;
        }
        if slots[i] == x {
          assert live[i] == x;
          return i, false;
        }
        assert live[..i + 1] == live[..i] + [slots[i]];
      }
      return NO_INDEX, false;
    }

    /**
      Stores a rule unless it is there already or no slot is left; `stored` is false in the last case. Nothing
      is changed when the search leaves the array.
     */
    method Store(x: Item) returns (stored: bool, outside: bool)
      modifies this, slots
      ensures outside <==> Receive(old(State()), x).None?
      ensures State() == if outside then old(State()) else Receive(old(State()), x).value
      ensures stored ==> x in slots[..]
      ensures forall i | 0 <= i < slots.Length && slots[i] != old(slots[i]) ::
                slots[i] == x && match old(slots[i])
                                 case Protocol(code) => code == 0
                                 case Ports(src, dst, _, _) => src == 0 && dst == 0
      ensures stored <==> !outside && (x in old(State().Live()) || FirstFree(old(slots[..]), 0) < slots.Length)
    {
      var index: int;
      index, outside := GetIndex(x);
      if outside {
        return false, true;
      }
      if index != NO_INDEX {
        slots[index] := x;
        assert slots[..] == old(slots[..]);
        assert slots[..][index] == x;
        return true, false;
      }
      index := GetFreeIndex();
      if index == NO_INDEX {
        return false, false;
      }
      slots[index] := x;
      assert slots[..][index] == x;
      size := size + 1;
      return true, false;
    }
  }

  datatype Command = IpProto(name: string) | UdpRule(rule: PortRule) | TcpRule(rule: PortRule) | Other

  datatype Tables = Tables(ip: Table, udp: Table, tcp: Table)

  /** The tables after a command, or `None` when looking for the rule leaves its table. */
  function Execute(t: Tables, c: Command): Option<Tables> {
    match c
    case IpProto(name) =>
      var ip := Receive(t.ip, Protocol(ProtocolNames.ProtCode(name)));
      if ip.None? then None else Some(t.(ip := ip.value))
    case UdpRule(rule) =>
      var udp := Receive(t.udp, rule);
      if udp.None? then None else Some(t.(udp := udp.value))
    case TcpRule(rule) =>
      var tcp := Receive(t.tcp, rule);
      if tcp.None? then None else Some(t.(tcp := tcp.value))
    case Other => Some(t)
  }

  function ZeroedTables(ipCapacity: nat, udpCapacity: nat, tcpCapacity: nat): Tables {
    Tables(Empty(ZERO_PROTOCOL, ipCapacity), Empty(ZERO_PORTS, udpCapacity), Empty(ZERO_PORTS, tcpCapacity))
  }

  /** Whether a table has no slot left for a rule that it does not hold. */
  predicate IsFullFor(t: Table, x: Item) {
    x !in t.Live() && FirstFree(t.slots, 0) == |t.slots|
  }

  /** In terms of the slots: the rule is not live, and every slot has a code or a port that is not zero. */
  lemma IsFullForIff(t: Table, x: Item)
    ensures IsFullFor(t, x) <==>
            && x !in t.Live()
            && forall s | s in t.slots :: if s.Protocol? then s.code != 0 else s.src != 0 || s.dst != 0
  {
    var k := FirstFree(t.slots, 0);
    if k < |t.slots| {
      assert t.slots[k] in t.slots;
    }
  }

  /** After a command its rule is in the table for it, unless that table is full; the other two are as before. */
  lemma CommandGoesToItsTable(t: Tables, c: Command)
    requires Execute(t, c).Some?
    ensures var r := Execute(t, c).value;
            match c
            case IpProto(name) =>
              var x := Protocol(ProtocolNames.ProtCode(name));
              r.udp == t.udp && r.tcp == t.tcp && if IsFullFor(t.ip, x) then r.ip == t.ip else x in r.ip.slots
            case UdpRule(rule) =>
              r.ip == t.ip && r.tcp == t.tcp && if IsFullFor(t.udp, rule) then r.udp == t.udp else rule in r.udp.slots
            case TcpRule(rule) =>
              r.ip == t.ip && r.udp == t.udp && if IsFullFor(t.tcp, rule) then r.tcp == t.tcp else rule in r.tcp.slots
            case Other => r == t
  {
    hide ProtocolNames.ProtCode;
    match c
    case IpProto(name) => ReceivedIsStored(t.ip, Protocol(ProtocolNames.ProtCode(name)));
    case UdpRule(rule) => ReceivedIsStored(t.udp, rule);
    case TcpRule(rule) => ReceivedIsStored(t.tcp, rule);
    case Other =>
  }

  lemma ReceivedIsStored(t: Table, x: Item)
    requires Receive(t, x).Some?
    ensures var r := Receive(t, x).value; if IsFullFor(t, x) then r == t else x in r.slots
  {
    var k := FirstFree(t.slots, 0);
    if x !in t.Live() && k < |t.slots| {
      assert t.slots[k := x][k] == x;
    }
  }

  class WakeupDb {
    const ip: FilterTable
    const udp: FilterTable
    const tcp: FilterTable

    ghost predicate Valid() {
      && ip != udp && ip != tcp && udp != tcp
      && ip.slots != udp.slots && ip.slots != tcp.slots && udp.slots != tcp.slots
    }

    ghost function Repr(): set<object> {
      {ip, udp, tcp, ip.slots, udp.slots, tcp.slots}
    }

    ghost function State(): Tables
      reads Repr()
    {
      Tables(ip.State(), udp.State(), tcp.State())
    }

    constructor (ipCapacity: nat, udpCapacity: nat, tcpCapacity: nat)
      ensures Valid() && fresh(Repr())
      ensures State() == ZeroedTables(ipCapacity, udpCapacity, tcpCapacity)
    {
      ip := new FilterTable(ZERO_PROTOCOL, ipCapacity);
      udp := new FilterTable(ZERO_PORTS, udpCapacity);
      tcp := new FilterTable(ZERO_PORTS, tcpCapacity);
    }

    /**
      A full IP protocol table still reports success; a full port table does not. `outside` reports a search
      that leaves its table.
     */
    method RecvConfig(c: Command) returns (ret: int, outside: bool)
      requires Valid()
      modifies Repr()
      ensures outside <==> Execute(old(State()), c).None?
      ensures State() == if outside then old(State()) else Execute(old(State()), c).value
      ensures !outside ==>
                ret ==
                if (c.UdpRule? && IsFullFor(old(State().udp), c.rule)) ||
                   (c.TcpRule? && IsFullFor(old(State().tcp), c.rule)) then -1
                else 0
    {
      var stored := true;
      outside := false;
      match c {
        case IpProto(name) =>
          var code := ProtocolNames.GetProtCode(name);
          var _, beyond := ip.Store(Protocol(code));
          outside := beyond;
        case UdpRule(rule) =>
          stored, outside := udp.Store(rule);
        case TcpRule(rule) =>
          stored, outside := tcp.Store(rule);
        case Other =>
      }
      ret := if stored then 0 else -1;
    }
  }
}
