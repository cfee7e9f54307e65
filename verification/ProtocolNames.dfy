/** The IP protocol names of the configuration file and the search that maps a name to its code. */
module ProtocolNames {
  import opened Devices

  const IP_PROTOCOL_DB_SIZE: nat := 255
  const UNKNOWN: uint8 := 255

  /** A name without line breaks. */
  type Name = s: string | forall i :: 0 <= i < |s| ==> s[i] != '\n' witness ""

  datatype NamedCode = NamedCode(base: Name, code: uint8)

  // The names are split into rows to keep each check small.
  const NAMES_0: seq<NamedCode> := [
    NamedCode("HOPOPT", 0x00), NamedCode("ICMP", 0x01), NamedCode("IGMP", 0x02),
    NamedCode("GGP", 0x03), NamedCode("IP-in-IP", 0x04), NamedCode("ST", 0x05),
    NamedCode("TCP", 0x06), NamedCode("CBT", 0x07), NamedCode("EGP", 0x08),
    NamedCode("IGP", 0x09), NamedCode("BBN-RCC-MON", 0x0A), NamedCode("NVP-II", 0x0B)]

  const NAMES_1: seq<NamedCode> := [
    NamedCode("PUP", 0x0C), NamedCode("ARGUS", 0x0D), NamedCode("EMCON", 0x0E),
    NamedCode("XNET", 0x0F), NamedCode("CHAOS", 0x10), NamedCode("UDP", 0x11),
    NamedCode("MUX", 0x12), NamedCode("DCN-MEAS", 0x13), NamedCode("HMP", 0x14),
    NamedCode("PRM", 0x15), NamedCode("XNS-IDP", 0x16), NamedCode("TRUNK-1", 0x17)]

  const NAMES_2: seq<NamedCode> := [
    NamedCode("TRUNK-2", 0x18), NamedCode("LEAF-1", 0x19), NamedCode("LEAF-2", 0x1A),
    NamedCode("RDP", 0x1B), NamedCode("IRTP", 0x1C), NamedCode("ISO-TP4", 0x1D),
    NamedCode("NETBLT", 0x1E), NamedCode("MFE-NSP", 0x1F), NamedCode("MERIT-INP", 0x20),
    NamedCode("DCCP", 0x21), NamedCode("3PC", 0x22), NamedCode("IDPR", 0x23)]

  const NAMES_3: seq<NamedCode> := [
    NamedCode("XTP", 0x24), NamedCode("DDP", 0x25), NamedCode("IDPR-CMTP", 0x26),
    NamedCode("TP++", 0x27), NamedCode("IL", 0x28), NamedCode("IPv6", 0x29),
    NamedCode("SDRP", 0x2A), NamedCode("IPv6-Route", 0x2B), NamedCode("IPv6-Frag", 0x2C),
    NamedCode("IDRP", 0x2D), NamedCode("RSVP", 0x2E), NamedCode("GRE", 0x2F)]

  const NAMES_4: seq<NamedCode> := [
    NamedCode("MHRP", 0x30), NamedCode("BNA", 0x31), NamedCode("ESP", 0x32),
    NamedCode("AH", 0x33), NamedCode("I-NLSP", 0x34), NamedCode("SWIPE", 0x35),
    NamedCode("NARP", 0x36), NamedCode("MOBILE", 0x37), NamedCode("TLSP", 0x38),
    NamedCode("SKIP", 0x39), NamedCode("IPv6-ICMP", 0x3A), NamedCode("IPv6-NoNxt", 0x3B)]

  const NAMES_5: seq<NamedCode> := [
    NamedCode("IPv6-Opts", 0x3C), NamedCode("CFTP", 0x3E), NamedCode("SAT-EXPAK", 0x40),
    NamedCode("KRYPTOLAN", 0x41), NamedCode("RVD", 0x42), NamedCode("IPPC", 0x43),
    NamedCode("SAT-MON", 0x45), NamedCode("VISA", 0x46), NamedCode("IPCU", 0x47),
    NamedCode("CPNX", 0x48), NamedCode("CPHB", 0x49), NamedCode("WSN", 0x4A)]

  const NAMES_6: seq<NamedCode> := [
    NamedCode("PVP", 0x4B), NamedCode("BR-SAT-MON", 0x4C), NamedCode("SUN-ND", 0x4D),
    NamedCode("WB-MON", 0x4E), NamedCode("WB-EXPAK", 0x4F), NamedCode("ISO-IP", 0x50),
    NamedCode("VMTP", 0x51), NamedCode("SECURE-VMTP", 0x52), NamedCode("VINES", 0x53),
    NamedCode("TTP", 0x54), NamedCode("IPTM", 0x54), NamedCode("NSFNET-IGP", 0x55)]

  const NAMES_7: seq<NamedCode> := [
    NamedCode("DGP", 0x56), NamedCode("TCF", 0x57), NamedCode("EIGRP", 0x58),
    NamedCode("OSPF", 0x59), NamedCode("Sprite-RPC", 0x5A), NamedCode("LARP", 0x5B),
    NamedCode("MTP", 0x5C), NamedCode("AX.25", 0x5D), NamedCode("IPIP", 0x5E),
    NamedCode("MICP", 0x5F), NamedCode("SCC-SP", 0x60), NamedCode("ETHERIP", 0x61)]

  const NAMES_8: seq<NamedCode> := [
    NamedCode("ENCAP", 0x62), NamedCode("GMTP", 0x64), NamedCode("IFMP", 0x65),
    NamedCode("PNNI", 0x66), NamedCode("PIM", 0x67), NamedCode("ARIS", 0x68),
    NamedCode("SCPS", 0x69), NamedCode("QNX", 0x6A), NamedCode("A/N", 0x6B),
    NamedCode("IPComp", 0x6C), NamedCode("SNP", 0x6D), NamedCode("Compaq-Peer", 0x6E)]

  const NAMES_9: seq<NamedCode> := [
    NamedCode("IPX-in-IP", 0x6F), NamedCode("VRRP", 0x70), NamedCode("PGM", 0x71),
    NamedCode("L2TP", 0x73), NamedCode("DDX", 0x74), NamedCode("IATP", 0x75),
    NamedCode("STP", 0x76), NamedCode("SRP", 0x77), NamedCode("UTI", 0x78),
    NamedCode("SMP", 0x79), NamedCode("SM", 0x7A), NamedCode("PTP", 0x7B)]

  const NAMES_10: seq<NamedCode> := [
    NamedCode("IS-IS over IPv4", 0x7C), NamedCode("FIRE", 0x7D), NamedCode("CRTP", 0x7E),
    NamedCode("CRUDP", 0x7F), NamedCode("SSCOPMCE", 0x80), NamedCode("IPLT", 0x81),
    NamedCode("SPS", 0x82), NamedCode("PIPE", 0x83), NamedCode("SCTP", 0x84),
    NamedCode("FC", 0x85), NamedCode("RSVP-E2E-IGNORE", 0x86), NamedCode("Mobility Header", 0x87)]

  const NAMES_11: seq<NamedCode> := [
    NamedCode("UDPLite", 0x88), NamedCode("MPLS-in-IP", 0x89), NamedCode("manet", 0x8A),
    NamedCode("HIP", 0x8B), NamedCode("Shim6", 0x8C), NamedCode("WESP", 0x8D),
    NamedCode("ROHC", 0x8E)]

  const NAMES: seq<NamedCode> :=
    NAMES_0 + NAMES_1 + NAMES_2 + NAMES_3 + NAMES_4 + NAMES_5 +
    NAMES_6 + NAMES_7 + NAMES_8 + NAMES_9 + NAMES_10 + NAMES_11

  /** An entry of the name table as it is stored: the name ends in a line break. */
  datatype Prot = Prot(name: string, code: uint8)

  /** The whole table. The entries behind the last name are zeroed. */
  function Database(): (r: seq<Prot>)
    ensures |r| == IP_PROTOCOL_DB_SIZE
  {
    seq(IP_PROTOCOL_DB_SIZE, i => if 0 <= i < |NAMES| then Prot(NAMES[i].base + "\n", NAMES[i].code) else Prot("", 0))
  }

  /** Whether the C strings `a` and `b` agree from index `i` on, when at most `n` characters are compared. */
  predicate StrncmpEqual(a: string, b: string, n: nat, i: nat)
    requires i <= n
    decreases n - i
  {
    if i == n then true
    else if i >= |a| || i >= |b| then i >= |a| && i >= |b|
    else a[i] == b[i] && StrncmpEqual(a, b, n, i + 1)
  }

  /** Comparing as many characters as the first string has is a prefix test. */
  lemma {:induction false} StrncmpIsPrefix(a: string, b: string, i: nat)
    requires i <= |a| && i <= |b| && a[..i] == b[..i]
    ensures StrncmpEqual(a, b, |a|, i) <==> a <= b
    decreases |a| - i
  {
    if i < |a| && i < |b| && a[i] == b[i] {
      assert a[..i + 1] == a[..i] + [a[i]] && b[..i + 1] == b[..i] + [b[i]];
      StrncmpIsPrefix(a, b, i + 1);
    } else if i == |a| {
      assert a[..i] == a;
    }
  }

  /** The code of the first entry from index `k` on that starts with `name`, or the unknown code. */
  function CodeFrom(db: seq<Prot>, name: string, k: nat): uint8
    requires k <= |db|
    decreases |db| - k
  {
    if k == |db| then UNKNOWN
    else if name <= db[k].name then db[k].code
    else CodeFrom(db, name, k + 1)
  }

  function ProtCode(name: string): uint8 { CodeFrom(Database(), name, 0) }

  /** A name that ends in its only line break. */
  predicate IsLine(s: string) {
    |s| >= 1 && s[|s| - 1] == '\n' && forall i :: 0 <= i < |s| - 1 ==> s[i] != '\n'
  }

  /** For a line, a prefix match against a line is equality. */
  lemma PrefixOfLineIsEqual(a: string, b: string)
    requires IsLine(a) && IsLine(b)
    ensures a <= b <==> a == b
  {
    assert a <= b ==> b[|a| - 1] == a[|a| - 1];
  }

  /** `code` belongs to the first entry named exactly `name` from index `k` on, or there is none. */
  ghost predicate IsExactMatch(db: seq<Prot>, name: string, k: nat, code: uint8) {
    || (exists i | k <= i < |db| ::
          && db[i].name == name && db[i].code == code
          && forall j | k <= j < i :: db[j].name != name)
    || (code == 255 && forall j | k <= j < |db| :: db[j].name != name)
  }

  lemma {:induction false} SearchIsExactIn(db: seq<Prot>, name: string, k: nat)
    requires IsLine(name) && k <= |db|
    requires forall i | 0 <= i < |db| :: IsLine(db[i].name) || db[i].name == ""
    ensures IsExactMatch(db, name, k, CodeFrom(db, name, k))
    decreases |db| - k
  {
    if k < |db| {
      if IsLine(db[k].name) {
        PrefixOfLineIsEqual(name, db[k].name);
      }
      if db[k].name != name {
        SearchIsExactIn(db, name, k + 1);
      }
    }
  }

  /**
    For a line the search yields the code of the first protocol with exactly that name, and the
    unknown code when there is none.
   */
  lemma SearchIsExact(name: string)
    requires IsLine(name)
    ensures IsExactMatch(Database(), name, 0, ProtCode(name))
  {
    var db := Database();
    forall i | 0 <= i < |db|
      ensures IsLine(db[i].name) || db[i].name == ""
    {
      if i < |NAMES| {
        NamedEntryIsLine(NAMES[i]);
      }
    }
    SearchIsExactIn(db, name, 0);
  }

  lemma NamedEntryIsLine(n: NamedCode)
    ensures IsLine(n.base + "\n")
  {
  }

  /**
    The code at each position: the codes count up from zero, except that 61, 63, 68, 99 and 114 have no name
    and that 84 has two.
   */
  function CodeAt(i: nat): nat {
    i + if i < 61 then 0 else if i < 62 then 1 else if i < 66 then 2 else if i < 82 then 3
        else if i < 97 then 2 else if i < 111 then 3 else 4
  }

  predicate CountUp(names: seq<NamedCode>, start: nat) {
    forall j | 0 <= j < |names| :: names[j].code == CodeAt(start + j)
  }

  lemma CountUpFurther(a: seq<NamedCode>, start: nat, b: seq<NamedCode>)
    requires CountUp(a, start) && CountUp(b, start + |a|)
    ensures CountUp(a + b, start)
  {
    forall j | 0 <= j < |a + b|
      ensures (a + b)[j].code == CodeAt(start + j)
    {
      if |a| <= j {
        assert b[j - |a|].code == CodeAt(start + |a| + (j - |a|));
      }
    }
  }

  lemma FirstRowsCountUp()
    ensures CountUp(NAMES_0, 0) && CountUp(NAMES_1, 12) && CountUp(NAMES_2, 24) && CountUp(NAMES_3, 36)
    ensures CountUp(NAMES_4, 48) && CountUp(NAMES_5, 60)
  {
  }

  lemma LastRowsCountUp()
    ensures CountUp(NAMES_6, 72) && CountUp(NAMES_7, 84)
    ensures CountUp(NAMES_8, 96) && CountUp(NAMES_9, 108) && CountUp(NAMES_10, 120) && CountUp(NAMES_11, 132)
  {
  }

  /** The whole table has these codes, in this order. */
  lemma CodesCountUp()
    ensures |NAMES| == 139 && CountUp(NAMES, 0)
    ensures forall i | 0 <= i < 139 :: Database()[i].code == CodeAt(i)
  {
    FirstRowsCountUp();
    LastRowsCountUp();
    var a := NAMES_0 + NAMES_1;
    CountUpFurther(NAMES_0, 0, NAMES_1);
    CountUpFurther(a, 0, NAMES_2);
    var b := a + NAMES_2 + NAMES_3;
    CountUpFurther(a + NAMES_2, 0, NAMES_3);
    CountUpFurther(b, 0, NAMES_4);
    var c := b + NAMES_4 + NAMES_5;
    CountUpFurther(b + NAMES_4, 0, NAMES_5);
    CountUpFurther(c, 0, NAMES_6);
    var d := c + NAMES_6 + NAMES_7;
    CountUpFurther(c + NAMES_6, 0, NAMES_7);
    CountUpFurther(d, 0, NAMES_8);
    var e := d + NAMES_8 + NAMES_9;
    CountUpFurther(d + NAMES_8, 0, NAMES_9);
    CountUpFurther(e, 0, NAMES_10);
    CountUpFurther(e + NAMES_10, 0, NAMES_11);
  }

  lemma {:induction false} CodeFromSkips(db: seq<Prot>, name: string, k: nat, n: nat)
    requires k <= n < |db| && name <= db[n].name
    requires forall i | k <= i < n :: !(name <= db[i].name)
    ensures CodeFrom(db, name, k) == db[n].code
    decreases n - k
  {
    if k != n {
      CodeFromSkips(db, name, k + 1, n);
    }
  }

  /** The code of the entry at position `n`, when no earlier one has the same name. */
  lemma CodeOfName(name: Name, n: nat)
    requires n < 24 && EarlyName(n) == name && forall i | 0 <= i < n :: EarlyName(i) != name
    ensures ProtCode(name + "\n") == CodeAt(n)
  {
    FirstRows();
    CodesCountUp();
    var db := Database();
    hide Database, EarlyName, CountUp;
    forall i | 0 <= i <= n
      ensures name + "\n" <= db[i].name <==> EarlyName(i) == name
    {
      NamedEntryIsLine(NamedCode(name, 0));
      NamedEntryIsLine(NamedCode(EarlyName(i), 0));
      PrefixOfLineIsEqual(name + "\n", EarlyName(i) + "\n");
      assert (name + "\n")[..|name|] == name && (EarlyName(i) + "\n")[..|EarlyName(i)|] == EarlyName(i);
    }
    CodeFromSkips(db, name + "\n", 0, n);
  }

  /** The numbers of three well-known protocols, as assigned for the header field of RFC 791. */
  lemma WellKnownCodes()
    ensures ProtCode("ICMP\n") == 1 && ProtCode("TCP\n") == 6 && ProtCode("UDP\n") == 17
  {
    IcmpIsOne();
    TcpIsSix();
    UdpIsSeventeen();
  }

  lemma IcmpIsOne()
    ensures ProtCode("ICMP\n") == 1
  {
    CodeOfName("ICMP", 1);
    assert "ICMP" + "\n" == "ICMP\n";
  }

  lemma TcpIsSix()
    ensures ProtCode("TCP\n") == 6
  {
    CodeOfName("TCP", 6);
    assert "TCP" + "\n" == "TCP\n";
  }

  lemma UdpIsSeventeen()
    ensures ProtCode("UDP\n") == 17
  {
    CodeOfName("UDP", 17);
    assert "UDP" + "\n" == "UDP\n";
  }

  function EarlyName(i: nat): Name
    requires i < 24
  {
    if i < 12 then NAMES_0[i].base else NAMES_1[i - 12].base
  }

  lemma FirstRows()
    ensures forall i | 0 <= i < 24 :: Database()[i].name == EarlyName(i) + "\n"
  {
    var rest := NAMES_2 + NAMES_3;
    assert forall i | 0 <= i < 24 :: NAMES[i] == if i < 12 then NAMES_0[i] else NAMES_1[i - 12];
  }

  /** The search itself: it stops at the first entry on which the comparison reports no difference. */
  method GetProtCode(name: string) returns (code: uint8)
    ensures code == ProtCode(name)
  {
    var db := Database();
    for index := 0 to IP_PROTOCOL_DB_SIZE
      invariant CodeFrom(db, name, index) == ProtCode(name)
    {
      StrncmpIsPrefix(name, db[index].name, 0);
      if StrncmpEqual(name, db[index].name, |name|, 0) {
        return db[index].code;
      }
    }
    return UNKNOWN;
  }
}
