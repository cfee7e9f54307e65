/** The SNMP configuration tool: every line of its file becomes one entry that the driver creates. */
module SnmpTool {
  import opened Sequences
  import opened Wrappers
  import opened Devices
  import opened Strings
  import opened SnmpEntries
  import OidCodec
  import HexCodec
  import BitCodec
  import IntegerCodec
  import T = SnmpTable

  /** The type letter of a line. IP addresses (`a`) are not part of this model. */
  function KindOf(letter: char): Option<Kind> {
    match letter
    case 'i' => Some(Integer)
    case 'u' => Some(Unsigned)
    case 'g' => Some(Gauge)
    case 't' => Some(TimeTicks)
    case 'o' => Some(ObjectId)
    case 's' => Some(Text)
    case 'd' => Some(Decimal)
    case 'x' => Some(Hex)
    case 'b' => Some(Bits)
    case _ => None
  }

  /** A line of the file, scanned into its three fields unless it is a comment. */
  datatype ConfigLine = Comment | Setting(oid: Bytes, letter: char, value: Bytes)

  /** The fields fit their buffers and the value suits the type. */
  predicate IsProcessable(line: ConfigLine) {
    line.Setting? ==>
      && |line.oid| < TEXT_BUFFER && 0 !in line.oid && OidCodec.FitsBuffers(line.oid)
      && |line.value| < TEXT_BUFFER && 0 !in line.value
      && line.letter != 'a'
      && (KindOf(line.letter).Some? ==> IsEncodable(KindOf(line.letter).value, line.value))
  }

  /** The entries that a line asks for: none for a comment or an unknown type. */
  function EntriesOfLine(line: ConfigLine): (r: seq<T.Entry>)
    requires IsProcessable(line)
    ensures |r| <= 1 && (r != [] ==> line.Setting? && r[0].oid == OidCodec.ParseOid(line.oid))
  {
    if line.Comment? || KindOf(line.letter).None? then []
    else
      var oid, kind := OidCodec.ParseOid(line.oid), KindOf(line.letter).value;
      OidCodec.ParseOidFits(line.oid);
      ContentIsShort(kind, line.value);
      [T.Entry(oid, |oid|, Tlv(kind, line.value), |Tlv(kind, line.value)|)]
  }

  function EntriesOf(lines: seq<ConfigLine>): seq<T.Entry>
    requires forall line | line in lines :: IsProcessable(line)
  {
    if lines == [] then [] else EntriesOf(lines[..|lines| - 1]) + EntriesOfLine(lines[|lines| - 1])
  }

  // What each type letter makes of a line.

  /** The line yields one entry, for `oid`, with the tag, the length and the contents as response. */
  ghost predicate Yields(line: ConfigLine, oid: Bytes, tag: uint8, content: Bytes) {
    && IsProcessable(line) && |oid| < 128 && |content| < 128
    && EntriesOfLine(line) == [T.Entry(oid, |oid|, [tag, |content|] + content, 2 + |content|)]
  }

  predicate IsPrintable(oid: Bytes) { oid != [] && 0 !in oid && |OidCodec.PrintOid(oid)| < 128 }

  lemma ResponseIs(kind: Kind, text: Bytes, tag: uint8, content: Bytes)
    requires IsEncodable(kind, text) && ParseTlv(Tlv(kind, text)) == Some((tag, content))
    ensures |content| < 128 && Tlv(kind, text) == [tag, |content|] + content
  {
    var bytes := Tlv(kind, text);
    assert bytes == [bytes[0], bytes[1]] + bytes[2..];
    hide Tlv;
  }

  /** A line with any of the nine letters yields one entry, under its OID. */
  lemma SettingYields(oid: Bytes, letter: char, kind: Kind, text: Bytes, tag: uint8, content: Bytes)
    requires IsPrintable(oid) && KindOf(letter) == Some(kind)
    requires IsEncodable(kind, text) && ParseTlv(Tlv(kind, text)) == Some((tag, content))
    ensures Yields(Setting(OidCodec.PrintOid(oid), letter, text), oid, tag, content)
  {
    hide OidCodec.PrintOid, OidCodec.ParseOid, OidCodec.FitsBuffers, Tlv, ParseTlv;
    OidCodec.PrintedFitsBuffers(oid);
    OidCodec.ParseOfPrinted(oid);
    OidCodec.ParseOidFits(OidCodec.PrintOid(oid));
    ResponseIs(kind, text, tag, content);
    EncodableTextFits(kind, text);
    hide IsEncodable;
    assert KindOf('a').None?;
    var line := Setting(OidCodec.PrintOid(oid), letter, text);
    assert IsProcessable(line);
    hide IsProcessable;
    assert |[tag, |content|] + content| == 2 + |content|;
  }

  lemma EncodableTextFits(kind: Kind, text: Bytes)
    requires IsEncodable(kind, text)
    ensures |text| < TEXT_BUFFER && 0 !in text
  {
  }

  /** `o`: the components of the value, one octet each. */
  lemma ObjectIdLine(oid: Bytes, bytes: Bytes)
    requires IsPrintable(oid) && IsPrintable(bytes)
    ensures Yields(Setting(OidCodec.PrintOid(oid), 'o', OidCodec.PrintOid(bytes)), oid, 0x06, bytes)
  {
    hide Yields, IsEncodable, Tlv, ParseTlv, OidCodec.PrintOid;
    ObjectIdIsRead(bytes);
    SettingYields(oid, 'o', ObjectId, OidCodec.PrintOid(bytes), 0x06, bytes);
  }

  /** `s` and `d`: the text as it is. */
  lemma TextLine(oid: Bytes, text: Bytes)
    requires IsPrintable(oid) && |text| < 128 && 0 !in text
    ensures Yields(Setting(OidCodec.PrintOid(oid), 's', text), oid, 0x04, text)
    ensures Yields(Setting(OidCodec.PrintOid(oid), 'd', text), oid, 0x04, text)
  {
    hide Yields, Tlv, ParseTlv, OidCodec.PrintOid, OidCodec.FitsBuffers, OidCodec.Atoi;
    TextIsRead(text);
    assert IsEncodable(Text, text) && IsEncodable(Decimal, text);
    hide IsEncodable;
    SettingYields(oid, 's', Text, text, 0x04, text);
    SettingYields(oid, 'd', Decimal, text, 0x04, text);
  }

  /** `x`: the octets whose hexadecimal digits are given. */
  lemma HexLine(oid: Bytes, bytes: Bytes)
    requires IsPrintable(oid) && 1 <= |bytes| < 64 && 0 !in bytes
    ensures Yields(Setting(OidCodec.PrintOid(oid), 'x', HexCodec.PrintHex(bytes)), oid, 0x04, bytes)
  {
    hide Yields, IsEncodable, Tlv, ParseTlv, OidCodec.PrintOid, HexCodec.PrintHex;
    HexIsRead(bytes);
    SettingYields(oid, 'x', Hex, HexCodec.PrintHex(bytes), 0x04, bytes);
  }

  /** `b`: the octets whose binary digits are given. */
  lemma BitsLine(oid: Bytes, bytes: Bytes)
    requires IsPrintable(oid) && |bytes| < 16 && 0 !in bytes
    ensures Yields(Setting(OidCodec.PrintOid(oid), 'b', BitCodec.ExpandBits(bytes)), oid, 0x03, bytes)
  {
    hide Yields, IsEncodable, Tlv, ParseTlv, OidCodec.PrintOid, BitCodec.ExpandBits;
    BitsAreRead(bytes);
    SettingYields(oid, 'b', Bits, BitCodec.ExpandBits(bytes), 0x03, bytes);
  }

  /** `i`, `u`, `g` and `t`: the number in its shortest form, under the tag of its type. */
  lemma NumberLine(oid: Bytes, letter: char, x: IntegerCodec.int32)
    requires IsPrintable(oid) && letter in {'i', 'u', 'g', 't'}
    ensures exists content ::
              && Yields(Setting(OidCodec.PrintOid(oid), letter, OidCodec.PrintInt(x)), oid,
                        if letter == 'i' then 0x02 else if letter == 't' then 0x43 else 0x42, content)
              && IntegerCodec.Decode(content) == (if x < 0 then x + 0x1_0000_0000 else x)
              && 1 <= |content| <= 4 && (|content| > 1 ==> content[0] != 0)
  {
    var kind := KindOf(letter).value;
    NumberIsRead(kind, x);
    hide Yields, IsEncodable, Tlv, ParseTlv, OidCodec.PrintOid, OidCodec.PrintInt;
    hide IntegerCodec.Decode, IntegerCodec.BitLength;
    var r := ParseTlv(Tlv(kind, OidCodec.PrintInt(x))).value;
    SettingYields(oid, letter, kind, OidCodec.PrintInt(x), r.0, r.1);
  }

  /** Any other letter, except the one for IP addresses, yields nothing. */
  lemma OtherLetterYieldsNothing(line: ConfigLine)
    requires IsProcessable(line)
    ensures EntriesOfLine(line) == [] <==>
            line.Comment? || line.letter !in {'i', 'u', 'g', 't', 'o', 's', 'd', 'x', 'b'}
  {
  }

  /** The entries of a file are those of its lines, in order. */
  lemma EntriesSnoc(lines: seq<ConfigLine>, line: ConfigLine)
    requires forall l | l in lines + [line] :: IsProcessable(l)
    ensures EntriesOf([]) == []
    ensures (forall l | l in lines :: IsProcessable(l)) && IsProcessable(line)
    ensures EntriesOf(lines + [line]) == EntriesOf(lines) + EntriesOfLine(line)
  {
    var all := lines + [line];
    assert line in all && forall l | l in lines :: l in all;
    assert all[..|lines|] == lines;
  }

  /** `a` and `b` have the same bytes before the first zero of either. */
  ghost predicate AgreeUpToZero(a: Bytes, b: Bytes) {
    exists n | 0 <= n <= |a| && n <= |b| ::
      && a[..n] == b[..n] && 0 !in a[..n]
      && (n == |a| || a[n] == 0) && (n == |b| || b[n] == 0)
  }

  /** Two OID texts lead to the same entry exactly when their components agree modulo 256 up to a zero. */
  lemma ShareEntryIff(text: Bytes, text': Bytes)
    ensures OidCodec.ParseOid(text) == OidCodec.ParseOid(text') <==>
            AgreeUpToZero(OidCodec.Codes(OidCodec.Components(text)), OidCodec.Codes(OidCodec.Components(text')))
  {
    var a, b := OidCodec.Codes(OidCodec.Components(text)), OidCodec.Codes(OidCodec.Components(text'));
    CutsAgreeIff(a, b);
  }

  lemma CutsAgreeIff(a: Bytes, b: Bytes)
    ensures CutAtZero(a) == CutAtZero(b) <==> AgreeUpToZero(a, b)
  {
    if CutAtZero(a) == CutAtZero(b) {
      var n := |CutAtZero(a)|;
      assert a[..n] == b[..n] && 0 !in a[..n];
    }
    if AgreeUpToZero(a, b) {
      var n :| 0 <= n <= |a| && n <= |b| && a[..n] == b[..n] && 0 !in a[..n]
        && (n == |a| || a[n] == 0) && (n == |b| || b[n] == 0);
      CutIsUnique(a, n);
      CutIsUnique(b, n);
    }
  }

  lemma CutIsUnique(s: Bytes, n: nat)
    requires n <= |s| && 0 !in s[..n] && (n == |s| || s[n] == 0)
    ensures CutAtZero(s) == s[..n]
  {
    assert forall i | 0 <= i < n :: s[i] == s[..n][i];
    if n < |s| {
      CutAtTerminator(s, n);
    } else {
      assert s[..n] == s;
      CutAtZeroIsLosslessIff(s);
    }
  }

  /** The entry of the last line that asks for one with the given OID. */
  function LastResponse(lines: seq<ConfigLine>, oid: Bytes): Option<T.Entry>
    requires forall line | line in lines :: IsProcessable(line)
  {
    if lines == [] then None
    else
      var e := EntriesOfLine(lines[|lines| - 1]);
      if e != [] && e[0].oid == oid then Some(e[0]) else LastResponse(lines[..|lines| - 1], oid)
  }

  /** That is what it is: a line with a later entry for the same OID takes its place, any other does not. */
  lemma LastResponseSnoc(lines: seq<ConfigLine>, line: ConfigLine, oid: Bytes)
    requires forall l | l in lines + [line] :: IsProcessable(l)
    ensures LastResponse([], oid) == None
    ensures (forall l | l in lines :: IsProcessable(l)) && IsProcessable(line)
    ensures LastResponse(lines + [line], oid) ==
            var e := EntriesOfLine(line);
            if |e| == 1 && e[0].oid == oid then Some(e[0]) else LastResponse(lines, oid)
  {
    var all := lines + [line];
    assert line in all && forall l | l in lines :: l in all;
    assert all[..|lines|] == lines;
  }

  lemma {:induction false} LastWriteIsLastResponse(lines: seq<ConfigLine>, oid: Bytes)
    requires forall line | line in lines :: IsProcessable(line)
    ensures T.LastWrite(EntriesOf(lines), oid) == LastResponse(lines, oid)
  {
    if lines != [] {
      var init, e := lines[..|lines| - 1], EntriesOfLine(lines[|lines| - 1]);
      LastWriteIsLastResponse(init, oid);
      hide IsProcessable, EntriesOfLine;
      if e == [] {
        assert EntriesOf(lines) == EntriesOf(init);
      } else {
        assert e == [e[0]];
        assert EntriesOf(lines)[..|EntriesOf(init)|] == EntriesOf(init);
      }
    }
  }

  /**
    From an empty table, a configuration file leaves the first `capacity` distinct OIDs of its lines in
    order of arrival, each with the response of its last line; any other OID has no entry.
   */
  lemma FileIsLastWriteWins(lines: seq<ConfigLine>, capacity: nat, text: Bytes)
    requires forall line | line in lines :: IsProcessable(line)
    ensures var t := T.Run(T.Creates(EntriesOf(lines)), capacity);
            var kept := Take(Distinct(T.Keys(EntriesOf(lines))), capacity);
            var oid := OidCodec.ParseOid(text);
            && T.Keys(t) == kept
            && T.Lookup(t, oid) == if oid in kept then LastResponse(lines, oid) else None
  {
    hide T.Run, Distinct, T.Keys, T.Lookup, T.LastWrite, LastResponse, EntriesOf;
    T.CreatesAreLastWriteWins(EntriesOf(lines), capacity, OidCodec.ParseOid(text));
    LastWriteIsLastResponse(lines, OidCodec.ParseOid(text));
  }

  lemma RunSnoc(ops: seq<T.Operation>, op: T.Operation, capacity: nat)
    ensures T.Run(ops + [op], capacity) == T.Apply(T.Run(ops, capacity), op, capacity)
  {
    assert (ops + [op])[..|ops|] == ops;
  }

  /** Fills a buffer with a scanned field. */
  method Scan(field: Bytes) returns (buffer: array<uint8>)
    requires |field| < TEXT_BUFFER && 0 !in field
    ensures fresh(buffer) && buffer.Length == TEXT_BUFFER && HoldsString(buffer, field)
  {
    buffer := new uint8[TEXT_BUFFER](i requires 0 <= i => if i < |field| then field[i] else 0);
    assert buffer[..|field|] == field;
  }

  /** The driver's part: it copies the entry and creates it. */
  method CreateEntry(db: T.SnmpDb, entry: AgentEntry, ghost oid: Bytes, ghost tlv: Bytes)
    requires db.Valid() && entry.Holds(oid, tlv) && |oid| < 0x1_0000 && |tlv| < 0x1_0000
    modifies db, db.slots
    ensures db.Valid()
    ensures db.Contents() ==
            T.Apply(old(db.Contents()), T.Create(T.Entry(oid, |oid|, tlv, |tlv|)), db.slots.Length)
  {
    var length := TextLength(entry.oidVal, oid);
    assert entry.oidVal[..length] == oid;
    var _ := db.RecvAgentConfig(T.Create(
      T.Entry(entry.oidVal[..length], entry.oidSize, entry.resVal[..entry.resSize], entry.resSize)));
  }

  method ProcessLine(db: T.SnmpDb, line: ConfigLine, ghost ops: seq<T.Operation>)
    requires db.Valid() && IsProcessable(line) && line.Setting?
    requires db.Contents() == T.Run(ops, db.slots.Length)
    modifies db, db.slots
    ensures db.Valid()
    ensures db.Contents() == T.Run(ops + T.Creates(EntriesOfLine(line)), db.slots.Length)
  {
    hide T.Run, Tlv, OidCodec.ParseOid, OidCodec.FitsBuffers, IsEncodable;
    var oid := Scan(line.oid);
    var value := Scan(line.value);
    OidCodec.ProcessString(oid, line.oid);
    CreatesOfLine(line, ops);
    match KindOf(line.letter) {
      case None =>
      case Some(kind) =>
        var entry := SetParam(oid, kind, value, OidCodec.ParseOid(line.oid), line.value);
        ghost var e := EntriesOfLine(line)[0];
        CreateEntry(db, entry, e.oid, e.res);
        RunSnoc(ops, T.Create(e), db.slots.Length);
    }
  }

  lemma CreatesOfLine(line: ConfigLine, ops: seq<T.Operation>)
    requires IsProcessable(line) && line.Setting?
    ensures var entries := EntriesOfLine(line);
            if KindOf(line.letter).None? then ops + T.Creates(entries) == ops
            else
              && |entries| == 1
              && ops + T.Creates(entries) == ops + [T.Create(entries[0])]
              && entries[0].oid == OidCodec.ParseOid(line.oid)
              && entries[0].res == Tlv(KindOf(line.letter).value, line.value)
              && entries[0].oidSize == |entries[0].oid|
              && entries[0].resSize == |entries[0].res|
  {
  }

  method ProcessFile(db: T.SnmpDb, lines: seq<ConfigLine>, ghost ops: seq<T.Operation>)
    requires db.Valid() && forall line | line in lines :: IsProcessable(line)
    requires db.Contents() == T.Run(ops, db.slots.Length)
    modifies db, db.slots
    ensures db.Valid()
    ensures db.Contents() == T.Run(ops + T.Creates(EntriesOf(lines)), db.slots.Length)
  {
    hide T.Run, EntriesOfLine, IsProcessable;
    assert ops + T.Creates([]) == ops;
    for i := 0 to |lines|
      invariant db.Valid()
      invariant db.Contents() == T.Run(ops + T.Creates(EntriesOf(lines[..i])), db.slots.Length)
    {
      assert lines[..i + 1][..i] == lines[..i];
      ghost var before, added := EntriesOf(lines[..i]), EntriesOfLine(lines[i]);
      CreatesAppend(ops, before, added);
      if lines[i].Setting? {
        ProcessLine(db, lines[i], ops + T.Creates(before));
      } else {
        CommentAddsNothing(lines[i]);
        assert before + added == before;
      }
    }
    assert lines[..|lines|] == lines;
  }

  lemma CommentAddsNothing(line: ConfigLine)
    requires IsProcessable(line) && line.Comment?
    ensures EntriesOfLine(line) == []
  {
  }

  lemma CreatesAppend(ops: seq<T.Operation>, es: seq<T.Entry>, more: seq<T.Entry>)
    ensures ops + T.Creates(es + more) == (ops + T.Creates(es)) + T.Creates(more)
  {
  }
}
