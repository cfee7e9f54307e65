/** The tool that reads a wake-up configuration file and sends every data line to the rule tables. */
module WakeupTool {
  import opened Sequences
  import opened Wrappers
  import opened Devices
  import opened FilterTables
  import opened WakeupRules
  import ProtocolNames

  datatype Section = NoSection | IpSection | TcpSection | UdpSection

  const IP_HEADER := "#Protocol list\n"
  const TCP_HEADER := "#TCP rules\n"
  const UDP_HEADER := "#UDP rules\n"

  /** Memory from the start of a string literal on: its characters, the terminator, and what follows. */
  function Memory(literal: string, beyond: string): string { literal + "\0" + beyond }

  /** A line as `fgets` delivers it: it contains no terminator. */
  type Text = s: string | forall i :: 0 <= i < |s| ==> s[i] != '\0' witness ""

  /** Whether the bytes of `line` from index `i` on are those behind the start of `literal`, its terminator included. */
  predicate MemcmpEqual(line: Text, literal: string, i: nat)
    requires i <= |line| && i <= |literal|
    decreases |line| - i
  {
    if i == |line| then true
    else line[i] == (literal + "\0")[i] && MemcmpEqual(line, literal, i + 1)
  }

  /** Comparing as many bytes as the line has is a prefix test: a longer line differs at the terminator. */
  lemma {:induction false} MemcmpIsPrefix(line: Text, literal: string, i: nat)
    requires i <= |line| && i <= |literal| && line[..i] == literal[..i]
    ensures MemcmpEqual(line, literal, i) <==> line <= literal
    decreases |line| - i
  {
    if i == |line| {
      assert line[..i] == line;
    } else if i < |literal| && line[i] == literal[i] {
      assert line[..i + 1] == line[..i] + [line[i]] && literal[..i + 1] == literal[..i] + [literal[i]];
      MemcmpIsPrefix(line, literal, i + 1);
    }
  }

  /** What lies behind the literal in memory does not matter, however long the line is. */
  lemma MemcmpIgnoresMemory(line: Text, literal: string, beyond: string)
    requires |line| <= |Memory(literal, beyond)|
    ensures Memory(literal, beyond)[..|line|] == line <==> MemcmpEqual(line, literal, 0)
  {
    var memory := Memory(literal, beyond);
    MemcmpIsPrefix(line, literal, 0);
    assert |literal| < |line| ==> memory[..|line|][|literal|] == '\0';
    assert |line| <= |literal| ==> memory[..|line|] == literal[..|line|];
  }

  /** For a line that ends in its only line break, a header matches exactly when it is that line. */
  lemma HeaderMatchIsExact(line: Text)
    requires ProtocolNames.IsLine(line)
    ensures forall header | header in {IP_HEADER, TCP_HEADER, UDP_HEADER} ::
              MemcmpEqual(line, header, 0) <==> line == header
  {
    forall header | header in {IP_HEADER, TCP_HEADER, UDP_HEADER}
      ensures MemcmpEqual(line, header, 0) <==> line == header
    {
      MemcmpIsPrefix(line, header, 0);
      ProtocolNames.PrefixOfLineIsEqual(line, header);
    }
  }

  datatype Line = Header(section: Section) | Comment | Data

  function Classify(line: string): Line {
    if line <= IP_HEADER then Header(IpSection)
    else if line <= TCP_HEADER then Header(TcpSection)
    else if line <= UDP_HEADER then Header(UdpSection)
    else if line[0] == '#' then Comment
    else Data
  }

  /** A complete line opens a section exactly when it is the header of that section. */
  lemma ClassifyIsExact(line: string)
    requires ProtocolNames.IsLine(line)
    ensures Classify(line) == Header(IpSection) <==> line == IP_HEADER
    ensures Classify(line) == Header(TcpSection) <==> line == TCP_HEADER
    ensures Classify(line) == Header(UdpSection) <==> line == UDP_HEADER
    ensures Classify(line).Data? <==> line[0] != '#'
  {
    ProtocolNames.PrefixOfLineIsEqual(line, IP_HEADER);
    ProtocolNames.PrefixOfLineIsEqual(line, TCP_HEADER);
    ProtocolNames.PrefixOfLineIsEqual(line, UDP_HEADER);
  }

  /** The command that a data line leads to. `ports` stands for the scan of the four port numbers. */
  function CommandFor(section: Section, line: string, ports: string -> PortRule): Command {
    match section
    case NoSection => Other
    case IpSection => IpProto(line)
    case TcpSection => TcpRule(ports(line))
    case UdpSection => UdpRule(ports(line))
  }

  datatype State = State(section: Section, tables: Tables)

  const NAME_BUFFER := 10

  /**
    The state after a line, or `None` when the program leaves one of its buffers: a protocol name with its
    terminator does not fit the buffer it is copied to, or the search for a rule reads past its table.
   */
  function LineEffect(st: State, line: string, ports: string -> PortRule): Option<State> {
    match Classify(line)
    case Header(section) => Some(st.(section := section))
    case Comment => Some(st)
    case Data =>
      if st.section.IpSection? && NAME_BUFFER <= |line| then None
      else
        var r := Execute(st.tables, CommandFor(st.section, line, ports));
        if r.None? then None else Some(st.(tables := r.value))
  }

  function After(st: Option<State>, line: string, ports: string -> PortRule): Option<State> {
    if st.None? then None else LineEffect(st.value, line, ports)
  }

  function FileEffect(st: State, lines: seq<string>, ports: string -> PortRule): Option<State> {
    if lines == [] then Some(st)
    else
      After(FileEffect(st, lines[..|lines| - 1], ports), lines[|lines| - 1], ports)
  }

  /** The section that is open after `lines`. */
  function SectionAfter(section: Section, lines: seq<string>): Section {
    if lines == [] then section
    else
      var last := Classify(lines[|lines| - 1]);
      if last.Header? then last.section else SectionAfter(section, lines[..|lines| - 1])
  }

  /** The data lines of one section, in order, wherever in the file that section is opened. */
  function SectionData(section: Section, lines: seq<string>, wanted: Section): seq<string> {
    if lines == [] then []
    else
      var init, last := lines[..|lines| - 1], lines[|lines| - 1];
      if Classify(last).Data? && SectionAfter(section, init) == wanted
      then SectionData(section, init, wanted) + [last]
      else SectionData(section, init, wanted)
  }

  /** What a complete line does to the open section and to the data of each section. */
  lemma LineInSection(section: Section, lines: seq<string>, line: string, wanted: Section)
    requires ProtocolNames.IsLine(line)
    ensures var open := SectionAfter(section, lines);
            SectionAfter(section, lines + [line]) ==
            if line == "#Protocol list\n" then IpSection
            else if line == "#TCP rules\n" then TcpSection
            else if line == "#UDP rules\n" then UdpSection
            else open
    ensures SectionData(section, lines + [line], wanted) ==
            SectionData(section, lines, wanted) +
            if line[0] != '#' && SectionAfter(section, lines) == wanted then [line] else []
  {
    assert (lines + [line])[..|lines|] == lines;
    ClassifyIsExact(line);
    var kind := Classify(line);
    hide Classify;
    assert kind.Header? ==> kind.section in {IpSection, TcpSection, UdpSection} by {
      SectionsOfHeaders(line);
    }
    if line[0] != '#' {
      assert kind.Data?;
    }
  }

  lemma SectionsOfHeaders(line: string)
    ensures Classify(line).Header? ==> Classify(line).section in {IpSection, TcpSection, UdpSection}
  {
  }

  predicate AreDataLines(lines: seq<string>) {
    forall i | 0 <= i < |lines| :: ProtocolNames.IsLine(lines[i]) && lines[i][0] != '#'
  }

  /** A stretch of data lines belongs to the open section as a whole. */
  lemma {:induction false} BlockInSection(section: Section, lines: seq<string>, block: seq<string>, wanted: Section)
    requires AreDataLines(block)
    ensures SectionAfter(section, lines + block) == SectionAfter(section, lines)
    ensures SectionData(section, lines + block, wanted) ==
            SectionData(section, lines, wanted) + if SectionAfter(section, lines) == wanted then block else []
  {
    if block == [] {
      assert lines + block == lines;
    } else {
      hide SectionData, SectionAfter;
      var init, last := block[..|block| - 1], block[|block| - 1];
      assert lines + block == (lines + init) + [last];
      assert block == init + [last];
      BlockInSection(section, lines, init, wanted);
      LineInSection(section, lines + init, last, wanted);
      Associative(SectionData(section, lines, wanted), init, [last]);
    }
  }

  /** A file with one block for each kind of rule. */
  function Blocks(ip: seq<string>, tcp: seq<string>, udp: seq<string>): seq<string> {
    ["#Protocol list\n"] + ip + ["#TCP rules\n"] + tcp + ["#UDP rules\n"] + udp
  }

  lemma SectionsOfBlocks(ip: seq<string>, tcp: seq<string>, udp: seq<string>, wanted: Section)
    requires AreDataLines(ip) && AreDataLines(tcp) && AreDataLines(udp)
    ensures SectionData(NoSection, Blocks(ip, tcp, udp), wanted) ==
            match wanted
            case NoSection => []
            case IpSection => ip
            case TcpSection => tcp
            case UdpSection => udp
  {
    var a := ["#Protocol list\n"];
    var b := a + ip + ["#TCP rules\n"];
    var c := b + tcp + ["#UDP rules\n"];
    assert [] + a == a && SectionData(NoSection, [], wanted) == [];
    HeadersAreLines();
    hide SectionData, SectionAfter;
    LineInSection(NoSection, [], "#Protocol list\n", wanted);
    BlockInSection(NoSection, a, ip, wanted);
    LineInSection(NoSection, a + ip, "#TCP rules\n", wanted);
    BlockInSection(NoSection, b, tcp, wanted);
    LineInSection(NoSection, b + tcp, "#UDP rules\n", wanted);
    BlockInSection(NoSection, c, udp, wanted);
  }

  lemma HeadersAreLines()
    ensures ProtocolNames.IsLine("#Protocol list\n")
    ensures ProtocolNames.IsLine("#TCP rules\n") && ProtocolNames.IsLine("#UDP rules\n")
  {
  }

  function IpItem(line: string): Item { Protocol(ProtocolNames.ProtCode(line)) }

  function IpItems(lines: seq<string>): (r: seq<Item>)
    ensures |r| == |lines|
  {
    seq(|lines|, i requires 0 <= i < |lines| => IpItem(lines[i]))
  }

  function PortItems(lines: seq<string>, ports: string -> PortRule): (r: seq<Item>)
    ensures |r| == |lines|
  {
    seq(|lines|, i requires 0 <= i < |lines| => ports(lines[i]))
  }

  /** The outcome for the whole file, from the three outcomes for the sections. */
  function Combine(section: Section, ip: Option<Table>, udp: Option<Table>, tcp: Option<Table>): Option<State> {
    if ip.None? || udp.None? || tcp.None? then None
    else Some(State(section, Tables(ip.value, udp.value, tcp.value)))
  }

  function Next(t: Option<Table>, x: Item): Option<Table> {
    if t.None? then None else Receive(t.value, x)
  }

  lemma RunSnoc(t: Table, xs: seq<Item>, x: Item)
    ensures Run(t, xs + [x]) == Next(Run(t, xs), x)
  {
    assert (xs + [x])[..|xs|] == xs;
  }

  /** The lines sent as protocol names fit the buffer that they are copied to. */
  ghost predicate NamesFit(section: Section, lines: seq<string>) {
    forall line | line in SectionData(section, lines, IpSection) :: |line| < NAME_BUFFER
  }

  /** A data line feeds the table of the open section and leaves the others alone. */
  lemma DataLineFeedsSection(section: Section, ip: Option<Table>, udp: Option<Table>, tcp: Option<Table>,
                             line: string, ports: string -> PortRule)
    requires Classify(line).Data?
    ensures After(Combine(section, ip, udp, tcp), line, ports) ==
            if section.IpSection? && NAME_BUFFER <= |line| then None
            else
              Combine(section,
                      if section.IpSection? then Next(ip, IpItem(line)) else ip,
                      if section.UdpSection? then Next(udp, ports(line)) else udp,
                      if section.TcpSection? then Next(tcp, ports(line)) else tcp)
  {
    hide Classify, Receive;
  }

  lemma IpItemsSnoc(lines: seq<string>, line: string)
    ensures IpItems(lines + [line]) == IpItems(lines) + [IpItem(line)]
  {
  }

  lemma PortItemsSnoc(lines: seq<string>, line: string, ports: string -> PortRule)
    ensures PortItems(lines + [line], ports) == PortItems(lines, ports) + [ports(line)]
  {
  }

  /** What a file makes of the tables when each is fed with the data lines of its own section. */
  function FedBySections(st: State, lines: seq<string>, ports: string -> PortRule): Option<State> {
    Combine(SectionAfter(st.section, lines),
            Run(st.tables.ip, IpItems(SectionData(st.section, lines, IpSection))),
            Run(st.tables.udp, PortItems(SectionData(st.section, lines, UdpSection), ports)),
            Run(st.tables.tcp, PortItems(SectionData(st.section, lines, TcpSection), ports)))
  }

  /**
    Each table is fed exactly with the data lines of its own section, in order. The program leaves a buffer
    exactly when a protocol line is too long or one of the three tables is overrun.
   */
  lemma {:induction false} FileFeedsSections(st: State, lines: seq<string>, ports: string -> PortRule)
    ensures FileEffect(st, lines, ports) ==
            if NamesFit(st.section, lines) then FedBySections(st, lines, ports) else None
  {
    if lines == [] {
      assert IpItems([]) == [] && PortItems([], ports) == [];
    } else {
      hide FedBySections, Classify, LineEffect;
      var init, last := lines[..|lines| - 1], lines[|lines| - 1];
      FileFeedsSections(st, init, ports);
      NamesFitUnfold(st.section, lines);
      if Classify(last).Data? {
        DataLineFeedsOneMore(st, lines, ports);
      } else {
        OtherLineFeedsNothing(st, lines, ports);
      }
      hide NamesFit;
    }
  }

  lemma NamesFitUnfold(section: Section, lines: seq<string>)
    requires lines != []
    ensures var init, last := lines[..|lines| - 1], lines[|lines| - 1];
            NamesFit(section, lines) <==>
            && NamesFit(section, init)
            && (Classify(last).Data? && SectionAfter(section, init).IpSection? ==> |last| < NAME_BUFFER)
  {
    hide Classify;
  }

  lemma DataLineFeedsOneMore(st: State, lines: seq<string>, ports: string -> PortRule)
    requires lines != [] && Classify(lines[|lines| - 1]).Data?
    ensures var init, last := lines[..|lines| - 1], lines[|lines| - 1];
            After(FedBySections(st, init, ports), last, ports) ==
            if SectionAfter(st.section, init).IpSection? && NAME_BUFFER <= |last| then None
            else FedBySections(st, lines, ports)
  {
    hide Run, Classify, Receive, IpItems, PortItems, LineEffect;
    var init, last := lines[..|lines| - 1], lines[|lines| - 1];
    var ip := SectionData(st.section, init, IpSection);
    var udp := SectionData(st.section, init, UdpSection);
    var tcp := SectionData(st.section, init, TcpSection);
    DataLineFeedsSection(
      SectionAfter(st.section, init), Run(st.tables.ip, IpItems(ip)),
      Run(st.tables.udp, PortItems(udp, ports)), Run(st.tables.tcp, PortItems(tcp, ports)), last, ports);
    IpItemsSnoc(ip, last);
    RunSnoc(st.tables.ip, IpItems(ip), IpItem(last));
    PortItemsSnoc(udp, last, ports);
    RunSnoc(st.tables.udp, PortItems(udp, ports), ports(last));
    PortItemsSnoc(tcp, last, ports);
    RunSnoc(st.tables.tcp, PortItems(tcp, ports), ports(last));
  }

  lemma OtherLineFeedsNothing(st: State, lines: seq<string>, ports: string -> PortRule)
    requires lines != [] && !Classify(lines[|lines| - 1]).Data?
    ensures var init, last := lines[..|lines| - 1], lines[|lines| - 1];
            After(FedBySections(st, init, ports), last, ports) == FedBySections(st, lines, ports)
  {
    hide Run, Classify, IpItems, PortItems;
  }

  /** Two files with the same data lines in each section have the same effect on all three tables. */
  lemma InterleavingDoesNotMatter(st: State, f: seq<string>, g: seq<string>, ports: string -> PortRule)
    requires forall s | s != NoSection :: SectionData(st.section, f, s) == SectionData(st.section, g, s)
    ensures var rf, rg := FileEffect(st, f, ports), FileEffect(st, g, ports);
            rf.Some? == rg.Some? && (rf.Some? ==> rf.value.tables == rg.value.tables)
  {
    hide FileEffect, SectionData, Run;
    FileFeedsSections(st, f, ports);
    FileFeedsSections(st, g, ports);
  }

  /** `t` is live with exactly `items`. */
  predicate IsLiveWith(t: Table, items: seq<Item>) { Elements(t.Live()) == Elements(items) }

  /**
    A file processed from zeroed tables leaves every table with exactly the rules of its section if and only if
    its protocol lines fit their buffer, no more distinct protocols come than there are slots, and both port
    tables keep everything.
   */
  lemma FileIsStoredIff(lines: seq<string>, ports: string -> PortRule, ip: nat, udp: nat, tcp: nat)
    ensures var r := FileEffect(State(NoSection, ZeroedTables(ip, udp, tcp)), lines, ports);
            var i := IpItems(SectionData(NoSection, lines, IpSection));
            var u := PortItems(SectionData(NoSection, lines, UdpSection), ports);
            var t := PortItems(SectionData(NoSection, lines, TcpSection), ports);
            (&& r.Some?
             && IsLiveWith(r.value.tables.ip, i)
             && IsLiveWith(r.value.tables.udp, u)
             && IsLiveWith(r.value.tables.tcp, t))
            <==>
            (&& NamesFit(NoSection, lines)
             && |Distinct(i)| <= ip
             && KeepsEverything(u, ZERO_PORTS, udp)
             && KeepsEverything(t, ZERO_PORTS, tcp))
  {
    hide FileEffect, SectionData, Run, Distinct, IpItems, PortItems, KeepsEverything, NamesFit;
    var i := IpItems(SectionData(NoSection, lines, IpSection));
    var u := PortItems(SectionData(NoSection, lines, UdpSection), ports);
    var t := PortItems(SectionData(NoSection, lines, TcpSection), ports);
    FileFeedsSections(State(NoSection, ZeroedTables(ip, udp, tcp)), lines, ports);
    IpItemsAreCodes(SectionData(NoSection, lines, IpSection));
    DistinctRulesAreKeptIff(ZERO_PROTOCOL, ip, i);
    RunKeepsEverythingIff(ZERO_PROTOCOL, ip, i);
    RunKeepsEverythingIff(ZERO_PORTS, udp, u);
    RunKeepsEverythingIff(ZERO_PORTS, tcp, t);
  }

  lemma IpItemsAreCodes(lines: seq<string>)
    ensures OnlyZeroIsFree(IpItems(lines), ZERO_PROTOCOL)
  {
  }

  /** The program leaves a buffer or a table exactly when a protocol line is too long or a section overruns its table. */
  lemma FileFailsIff(lines: seq<string>, ports: string -> PortRule, ip: nat, udp: nat, tcp: nat)
    ensures FileEffect(State(NoSection, ZeroedTables(ip, udp, tcp)), lines, ports).None? <==>
            || !NamesFit(NoSection, lines)
            || Overrun(IpItems(SectionData(NoSection, lines, IpSection)), ZERO_PROTOCOL, ip)
            || Overrun(PortItems(SectionData(NoSection, lines, UdpSection), ports), ZERO_PORTS, udp)
            || Overrun(PortItems(SectionData(NoSection, lines, TcpSection), ports), ZERO_PORTS, tcp)
  {
    hide FileEffect, SectionData, Run, IpItems, PortItems, Overrun, NamesFit;
    FileFeedsSections(State(NoSection, ZeroedTables(ip, udp, tcp)), lines, ports);
    RunClosedForm(ZERO_PROTOCOL, ip, IpItems(SectionData(NoSection, lines, IpSection)));
    RunClosedForm(ZERO_PORTS, udp, PortItems(SectionData(NoSection, lines, UdpSection), ports));
    RunClosedForm(ZERO_PORTS, tcp, PortItems(SectionData(NoSection, lines, TcpSection), ports));
  }

  /**
    A file of three blocks with no more lines than slots, protocol names that fit and rules with a port leaves
    each table with exactly what its block asks for.
   */
  lemma BlocksAreStored(ip: seq<string>, tcp: seq<string>, udp: seq<string>, ports: string -> PortRule,
                        ipCapacity: nat, udpCapacity: nat, tcpCapacity: nat)
    requires AreDataLines(ip) && AreDataLines(tcp) && AreDataLines(udp)
    requires |ip| <= ipCapacity && |tcp| <= tcpCapacity && |udp| <= udpCapacity
    requires forall line | line in ip :: |line| < 10
    requires forall line | line in tcp || line in udp :: ports(line).src != 0 || ports(line).dst != 0
    ensures var r := FileEffect(State(NoSection, ZeroedTables(ipCapacity, udpCapacity, tcpCapacity)),
                                Blocks(ip, tcp, udp), ports);
            && r.Some?
            && (forall x :: x in r.value.tables.ip.Live() <==>
                            exists i | 0 <= i < |ip| :: x == Protocol(ProtocolNames.ProtCode(ip[i])))
            && (forall x :: x in r.value.tables.tcp.Live() <==> exists i | 0 <= i < |tcp| :: x == ports(tcp[i]))
            && (forall x :: x in r.value.tables.udp.Live() <==> exists i | 0 <= i < |udp| :: x == ports(udp[i]))
  {
    hide FileEffect, IsLiveWith, Blocks, Table.Live;
    BlocksAreLive(ip, tcp, udp, ports, ipCapacity, udpCapacity, tcpCapacity);
    var t := FileEffect(State(NoSection, ZeroedTables(ipCapacity, udpCapacity, tcpCapacity)),
                        Blocks(ip, tcp, udp), ports).value.tables;
    LiveProtocols(t.ip, ip);
    LivePortRules(t.tcp, tcp, ports);
    LivePortRules(t.udp, udp, ports);
  }

  lemma BlocksAreLive(ip: seq<string>, tcp: seq<string>, udp: seq<string>, ports: string -> PortRule,
                      ipCapacity: nat, udpCapacity: nat, tcpCapacity: nat)
    requires AreDataLines(ip) && AreDataLines(tcp) && AreDataLines(udp)
    requires |ip| <= ipCapacity && |tcp| <= tcpCapacity && |udp| <= udpCapacity
    requires forall line | line in ip :: |line| < 10
    requires forall line | line in tcp || line in udp :: ports(line).src != 0 || ports(line).dst != 0
    ensures var r := FileEffect(State(NoSection, ZeroedTables(ipCapacity, udpCapacity, tcpCapacity)),
                                Blocks(ip, tcp, udp), ports);
            && r.Some?
            && IsLiveWith(r.value.tables.ip, IpItems(ip))
            && IsLiveWith(r.value.tables.tcp, PortItems(tcp, ports))
            && IsLiveWith(r.value.tables.udp, PortItems(udp, ports))
  {
    var lines := Blocks(ip, tcp, udp);
    SectionsOfBlocks(ip, tcp, udp, IpSection);
    SectionsOfBlocks(ip, tcp, udp, TcpSection);
    SectionsOfBlocks(ip, tcp, udp, UdpSection);
    hide FileEffect, SectionData, KeepsEverything, Distinct, IsLiveWith, Blocks, AreDataLines;
    DistinctIsShort(IpItems(ip));
    FewPortsAreKept(PortItems(tcp, ports), tcpCapacity);
    FewPortsAreKept(PortItems(udp, ports), udpCapacity);
    FileIsStoredIff(lines, ports, ipCapacity, udpCapacity, tcpCapacity);
  }

  lemma LiveProtocols(t: Table, lines: seq<string>)
    requires IsLiveWith(t, IpItems(lines))
    ensures forall x :: x in t.Live() <==>
              exists i | 0 <= i < |lines| :: x == Protocol(ProtocolNames.ProtCode(lines[i]))
  {
    hide Table.Live;
    ElementsAreMembers(t.Live(), IpItems(lines));
    assert forall i | 0 <= i < |lines| :: IpItems(lines)[i] == Protocol(ProtocolNames.ProtCode(lines[i]));
  }

  lemma LivePortRules(t: Table, lines: seq<string>, ports: string -> PortRule)
    requires IsLiveWith(t, PortItems(lines, ports))
    ensures forall x :: x in t.Live() <==> exists i | 0 <= i < |lines| :: x == ports(lines[i])
  {
    hide Table.Live;
    ElementsAreMembers(t.Live(), PortItems(lines, ports));
    assert forall i | 0 <= i < |lines| :: PortItems(lines, ports)[i] == ports(lines[i]);
  }

  lemma FewPortsAreKept(xs: seq<Item>, capacity: nat)
    requires |xs| <= capacity && forall x | x in xs :: x.Ports? && (x.src != 0 || x.dst != 0)
    ensures KeepsEverything(xs, ZERO_PORTS, capacity)
  {
    DistinctIsShort(xs);
    DistinctRulesAreKeptIff(ZERO_PORTS, capacity, xs);
  }

  lemma {:induction false} DistinctIsShort(xs: seq<Item>)
    ensures |Distinct(xs)| <= |xs|
  {
    if xs != [] {
      DistinctIsShort(xs[..|xs| - 1]);
    }
  }

  /** A protocol name in a file of its own is stored exactly when it has fewer than nine characters. */
  lemma NameIsStoredIff(name: ProtocolNames.Name, ports: string -> PortRule, ip: nat, udp: nat, tcp: nat)
    requires name != "" && name[0] != '#' && 1 <= ip
    ensures var r := FileEffect(State(NoSection, ZeroedTables(ip, udp, tcp)), ["#Protocol list\n", name + "\n"], ports);
            && (r.Some? <==> |name| + 1 < 10)
            && (r.Some? ==> r.value.tables.ip.Live() == [Protocol(ProtocolNames.ProtCode(name + "\n"))])
  {
    var line, lines := name + "\n", [IP_HEADER, name + "\n"];
    var st := State(NoSection, ZeroedTables(ip, udp, tcp));
    ClassifyIsExact(line);
    assert lines[..1] == [IP_HEADER] && lines[..1][..0] == [];
    assert FileEffect(st, [], ports) == Some(st);
    assert FileEffect(st, [IP_HEADER], ports) == Some(State(IpSection, st.tables));
    ReceivedByEmpty(ip, IpItem(line));
    hide Receive, ZeroedTables, ProtocolNames.ProtCode;
  }

  lemma ReceivedByEmpty(capacity: nat, x: Item)
    requires 1 <= capacity && x.Protocol?
    ensures var r := Receive(Empty(ZERO_PROTOCOL, capacity), x);
            r.Some? && r.value.Live() == [x]
  {
    var r := Receive(Empty(ZERO_PROTOCOL, capacity), x).value;
    assert r.Live() == [x];
  }

  /** One of the known names that are too long. */
  lemma Ipv6IcmpLeavesBuffer(ports: string -> PortRule, ip: nat, udp: nat, tcp: nat)
    requires 1 <= ip
    ensures ProtocolNames.NamedCode("IPv6-ICMP", 0x3A) in ProtocolNames.NAMES_4
    ensures FileEffect(State(NoSection, ZeroedTables(ip, udp, tcp)), ["#Protocol list\n", "IPv6-ICMP\n"], ports) == None
  {
    assert ProtocolNames.NAMES_4[10] == ProtocolNames.NamedCode("IPv6-ICMP", 0x3A);
    hide FileEffect;
    NameIsStoredIff("IPv6-ICMP", ports, ip, udp, tcp);
    assert "IPv6-ICMP" + "\n" == "IPv6-ICMP\n";
  }

  class Tool {
    var section: Section
    const db: WakeupDb
    const ports: string -> PortRule

    constructor (db: WakeupDb, ports: string -> PortRule)
      ensures this.db == db && this.ports == ports && section == NoSection
    {
      this.db, this.ports, section := db, ports, NoSection;
    }

    ghost function Current(): State
      reads this, db.Repr()
    {
      State(section, db.State())
    }

    /** Copies the line with its line break to a buffer of its own and sends it, unless the buffer ends before. */
    method ProcessIpProt(line: string) returns (outside: bool)
      requires db.Valid()
      modifies db.Repr()
      ensures outside <==> NAME_BUFFER <= |line| || Execute(old(db.State()), IpProto(line)).None?
      ensures db.State() == if outside then old(db.State()) else Execute(old(db.State()), IpProto(line)).value
    {
      var buffer := new char[NAME_BUFFER](_ => '\0');
      for i := 0 to |line|
        invariant i <= NAME_BUFFER && buffer[..i] == line[..i]
        invariant db.State() == old(db.State())
      {
        if i == buffer.Length {
          return true;
        }
        buffer[i] := line[i];
      }
      if |line| == buffer.Length {
        return true;
      }
      buffer[|line|] := '\0';
      assert buffer[..|line|] == line;
      var _, beyond := db.RecvConfig(IpProto(buffer[..|line|]));
      return beyond;
    }

    /** `outside` reports that the program leaves a buffer or a table with this line; nothing is changed then. */
    method ProcessLine(line: Text) returns (outside: bool)
      requires db.Valid()
      modifies this`section, db.Repr()
      ensures outside <==> LineEffect(old(Current()), line, ports).None?
      ensures Current() == if outside then old(Current()) else LineEffect(old(Current()), line, ports).value
    {
      MemcmpIsPrefix(line, IP_HEADER, 0);
      MemcmpIsPrefix(line, TCP_HEADER, 0);
      MemcmpIsPrefix(line, UDP_HEADER, 0);
      if MemcmpEqual(line, IP_HEADER, 0) {
        section := IpSection;
        return false;
      } else if MemcmpEqual(line, TCP_HEADER, 0) {
        section := TcpSection;
        return false;
      } else if MemcmpEqual(line, UDP_HEADER, 0) {
        section := UdpSection;
        return false;
      } else if line[0] == '#' {
        return false;
      }
      outside := false;
      match section {
        case IpSection => outside := ProcessIpProt(line);
        case TcpSection =>
          var _, beyond := db.RecvConfig(TcpRule(ports(line)));
          outside := beyond;
        case UdpSection =>
          var _, beyond := db.RecvConfig(UdpRule(ports(line)));
          outside := beyond;
        case NoSection =>
      }
    }

    /** Ends with the file, or with the first line that makes the program leave a buffer or a table. */
    method ProcessFile(lines: seq<Text>) returns (outside: bool)
      requires db.Valid()
      modifies this`section, db.Repr()
      ensures outside <==> FileEffect(old(Current()), lines, ports).None?
      ensures !outside ==> Current() == FileEffect(old(Current()), lines, ports).value
      ensures outside ==> exists i | 0 <= i < |lines| ::
                && FileEffect(old(Current()), lines[..i], ports) == Some(Current())
                && LineEffect(Current(), lines[i], ports).None?
    {
      ghost var start := Current();
      for i := 0 to |lines|
        invariant FileEffect(start, lines[..i], ports) == Some(Current())
      {
        outside := ProcessLine(lines[i]);
        assert lines[..i + 1][..i] == lines[..i];
        if outside {
          EffectOfPrefix(start, lines, i + 1, ports);
          return true;
        }
      }
      assert lines[..|lines|] == lines;
      return false;
    }
  }

  /** A file with a prefix that cannot be processed to its end cannot be either. */
  lemma {:induction false} EffectOfPrefix(st: State, lines: seq<string>, i: nat, ports: string -> PortRule)
    requires i <= |lines| && FileEffect(st, lines[..i], ports).None?
    ensures FileEffect(st, lines, ports).None?
    decreases |lines|
  {
    if i == |lines| {
      assert lines[..i] == lines;
    } else {
      assert lines[..|lines| - 1][..i] == lines[..i];
      EffectOfPrefix(st, lines[..|lines| - 1], i, ports);
    }
  }
}
