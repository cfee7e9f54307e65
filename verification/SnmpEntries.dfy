/** The entry that the configuration tool builds for one line: an OID and a type-length-value response. */
module SnmpEntries {
  import opened Wrappers
  import opened Devices
  import opened Strings
  import HexCodec
  import BitCodec
  import IntegerCodec
  import OidCodec

  const TEXT_BUFFER := 128
  const RES_BUFFER := 132

  /** The type letters of the configuration file, without the one for IP addresses. */
  datatype Kind = Integer | Unsigned | Gauge | TimeTicks | ObjectId | Text | Decimal | Hex | Bits

  /** The identifier octet of each type. */
  function Tag(kind: Kind): uint8 {
    match kind
    case Integer => 0x02
    case Unsigned => 0x42
    case Gauge => 0x42
    case TimeTicks => 0x43
    case Text => 0x04
    case Hex => 0x04
    case Decimal => 0x04
    case Bits => 0x03
    case ObjectId => 0x06
  }

  predicate IsNumeric(kind: Kind) { kind.Integer? || kind.Unsigned? || kind.Gauge? || kind.TimeTicks? }

  /** What a value must look like for the conversion of its type to be defined. */
  predicate IsEncodable(kind: Kind, text: Bytes) {
    && |text| < TEXT_BUFFER && 0 !in text
    && (IsNumeric(kind) ==> -0x8000_0000 <= OidCodec.Atoi(text) < 0x8000_0000)
    && (kind.ObjectId? ==> OidCodec.FitsBuffers(text))
    && (kind.Hex? ==> 1 <= |text| && HexCodec.IsHex(text))
    && (kind.Bits? ==> BitCodec.IsBitString(text))
  }

  /** What a text becomes before it is measured. */
  function Converted(kind: Kind, text: Bytes): (r: Bytes)
    requires IsEncodable(kind, text) && !IsNumeric(kind)
  {
    match kind
    case ObjectId => OidCodec.ParseOid(text)
    case Hex => HexCodec.DecodeHex(text)
    case Bits => BitCodec.PackBits(text)
    case _ => text
  }

  /** The contents octets: for a number its shortest form, otherwise the converted text up to a zero. */
  function Content(kind: Kind, text: Bytes): (r: Bytes)
    requires IsEncodable(kind, text)
  {
    if IsNumeric(kind) then IntegerCodec.Encode(IntegerCodec.AsUnsigned(OidCodec.Atoi(text)))
    else CutAtZero(Converted(kind, text))
  }

  lemma ContentIsShort(kind: Kind, text: Bytes)
    requires IsEncodable(kind, text)
    ensures |Content(kind, text)| <= 127
  {
    if kind.ObjectId? {
      OidCodec.ParseOidFits(text);
    }
  }

  function Tlv(kind: Kind, text: Bytes): Bytes
    requires IsEncodable(kind, text)
  {
    ContentIsShort(kind, text);
    [Tag(kind), |Content(kind, text)|] + Content(kind, text)
  }

  /** Reads a type-length-value sequence in the short form of section 8.1.3.4 of ITU-T X.690. */
  function ParseTlv(bytes: Bytes): Option<(uint8, Bytes)> {
    if 2 <= |bytes| && bytes[1] < 0x80 && |bytes| == 2 + bytes[1] as int then Some((bytes[0], bytes[2..]))
    else None
  }

  /** Every built response is well formed and carries the tag and the contents of its line. */
  lemma ParseOfTlv(kind: Kind, text: Bytes)
    requires IsEncodable(kind, text)
    ensures ParseTlv(Tlv(kind, text)) == Some((Tag(kind), Content(kind, text)))
  {
    ContentIsShort(kind, text);
    assert Tlv(kind, text)[2..] == Content(kind, text);
  }

  /** A number is read back from its response, as a signed number with the known exception. */
  lemma NumberOfTlv(kind: Kind, text: Bytes)
    requires IsEncodable(kind, text) && IsNumeric(kind)
    ensures var x, content := OidCodec.Atoi(text), ParseTlv(Tlv(kind, text)).value.1;
            && IntegerCodec.Decode(content) == IntegerCodec.AsUnsigned(x)
            && (IntegerCodec.DecodeSigned(content) == x <==> !(x > 0 && IntegerCodec.BitLength(x) % 8 == 0))
  {
    ParseOfTlv(kind, text);
    IntegerCodec.DecodeOfEncoded(IntegerCodec.AsUnsigned(OidCodec.Atoi(text)));
    IntegerCodec.SignedReadingIff(OidCodec.Atoi(text));
  }

  // What a reader of the response finds, for each type.

  /** An object identifier without zeros is read back as its components, one octet each. */
  lemma ObjectIdIsRead(bytes: Bytes)
    requires bytes != [] && 0 !in bytes && |OidCodec.PrintOid(bytes)| < 128
    ensures IsEncodable(ObjectId, OidCodec.PrintOid(bytes))
    ensures ParseTlv(Tlv(ObjectId, OidCodec.PrintOid(bytes))) == Some((0x06, bytes))
  {
    OidCodec.PrintedFitsBuffers(bytes);
    OidCodec.ParseOfPrinted(bytes);
    CutAtZeroIsLosslessIff(bytes);
    hide OidCodec.PrintOid, OidCodec.ParseOid, OidCodec.FitsBuffers, CutAtZero, OidCodec.Atoi;
    ParseOfTlv(ObjectId, OidCodec.PrintOid(bytes));
  }

  /** A text is read back as it is, with or without the hint that it is decimal. */
  lemma TextIsRead(text: Bytes)
    requires |text| < 128 && 0 !in text
    ensures ParseTlv(Tlv(Text, text)) == ParseTlv(Tlv(Decimal, text)) == Some((0x04, text))
  {
    hide OidCodec.Atoi, CutAtZero;
    CutAtZeroIsLosslessIff(text);
    ParseOfTlv(Text, text);
    ParseOfTlv(Decimal, text);
  }

  /** Octets without zeros are read back from their hexadecimal notation. */
  lemma HexIsRead(bytes: Bytes)
    requires 1 <= |bytes| < 64 && 0 !in bytes
    ensures IsEncodable(Hex, HexCodec.PrintHex(bytes))
    ensures ParseTlv(Tlv(Hex, HexCodec.PrintHex(bytes))) == Some((0x04, bytes))
  {
    HexCodec.DecodeOfPrinted(bytes);
    CutAtZeroIsLosslessIff(bytes);
    hide HexCodec.PrintHex, HexCodec.DecodeHex, CutAtZero, OidCodec.Atoi;
    assert forall i | 0 <= i < |HexCodec.PrintHex(bytes)| :: HexCodec.IsHexDigit(HexCodec.PrintHex(bytes)[i]);
    ParseOfTlv(Hex, HexCodec.PrintHex(bytes));
  }

  /** Octets without zeros are read back from their binary digits. */
  lemma BitsAreRead(bytes: Bytes)
    requires |bytes| < 16 && 0 !in bytes
    ensures IsEncodable(Bits, BitCodec.ExpandBits(bytes))
    ensures ParseTlv(Tlv(Bits, BitCodec.ExpandBits(bytes))) == Some((0x03, bytes))
  {
    BitCodec.PackOfExpanded(bytes);
    CutAtZeroIsLosslessIff(bytes);
    hide BitCodec.ExpandBits, BitCodec.PackBits, CutAtZero, OidCodec.Atoi;
    ParseOfTlv(Bits, BitCodec.ExpandBits(bytes));
  }

  /** The identifier octet of each numeric type: universal for INTEGER, application for those of RFC 2578. */
  predicate IsNumberTag(kind: Kind, tag: uint8) {
    || (kind.Integer? && tag == 0x02)
    || (kind.Gauge? && tag == 0x42)
    || (kind.Unsigned? && tag == 0x42)
    || (kind.TimeTicks? && tag == 0x43)
  }

  /** A number in decimal notation is read back, as a signed one with the known exception. */
  lemma NumberIsRead(kind: Kind, x: IntegerCodec.int32)
    requires IsNumeric(kind)
    ensures IsEncodable(kind, OidCodec.PrintInt(x))
    ensures var r := ParseTlv(Tlv(kind, OidCodec.PrintInt(x)));
            && r.Some? && IsNumberTag(kind, r.value.0)
            && IntegerCodec.Decode(r.value.1) == (if x < 0 then x + 0x1_0000_0000 else x)
            && (IntegerCodec.DecodeSigned(r.value.1) == x <==> !(x > 0 && IntegerCodec.BitLength(x) % 8 == 0))
            && 1 <= |r.value.1| <= 4 && (|r.value.1| > 1 ==> r.value.1[0] != 0)
  {
    var text := OidCodec.PrintInt(x);
    OidCodec.AtoiOfPrintedInt(x, []);
    assert text + [] == text;
    OidCodec.PrintIntIsShort(x);
    hide OidCodec.PrintInt, OidCodec.Atoi, IntegerCodec.Encode, IntegerCodec.Decode, IntegerCodec.BitLength;
    ParseOfTlv(kind, text);
    NumberOfTlv(kind, text);
    IntegerCodec.DecodeOfEncoded(IntegerCodec.AsUnsigned(x));
  }

  /** Whether the pair of digits at position `w` is a double zero. */
  predicate IsDoubleZero(text: Bytes, w: nat)
    requires w < |text| / 2
  {
    text[2 * w] == '0' as int && text[2 * w + 1] == '0' as int
  }

  lemma DecodedByteIsZeroIff(text: Bytes, w: nat)
    requires HexCodec.IsHex(text) && w < |text| / 2
    ensures HexCodec.DecodeHex(text)[w] == 0 <==> IsDoubleZero(text, w)
  {
    HexCodec.DigitsAreNibbles(text);
    HexCodec.PairUpAt(HexCodec.Digits(text), w);
  }

  /** A hexadecimal value is stored whole exactly when none of its digit pairs is a double zero. */
  lemma HexIsStoredWholeIff(text: Bytes)
    requires IsEncodable(Hex, text)
    ensures Content(Hex, text) == HexCodec.DecodeHex(text) <==>
            forall w | 0 <= w < |text| / 2 :: !IsDoubleZero(text, w)
  {
    hide HexCodec.DecodeHex, IsDoubleZero;
    var bytes := HexCodec.DecodeHex(text);
    CutAtZeroIsLosslessIff(bytes);
    forall w | 0 <= w < |text| / 2
      ensures bytes[w] == 0 <==> IsDoubleZero(text, w)
    {
      DecodedByteIsZeroIff(text, w);
    }
  }

  /** Whether the group of eight digits at position `w` holds a one. */
  predicate HasOne(text: Bytes, w: nat)
    requires w < |text| / 8
  {
    '1' as int in text[8 * w..8 * w + 8]
  }

  /** A bit string is stored whole exactly when each group of eight digits holds a one. */
  lemma BitsAreStoredWholeIff(text: Bytes)
    requires IsEncodable(Bits, text)
    ensures Content(Bits, text) == BitCodec.PackBits(text) <==>
            forall w | 0 <= w < |text| / 8 :: HasOne(text, w)
  {
    hide BitCodec.PackBits, BitCodec.BitsValue;
    var bytes := BitCodec.PackBits(text);
    CutAtZeroIsLosslessIff(bytes);
    forall w | 0 <= w < |text| / 8
      ensures bytes[w] != 0 <==> HasOne(text, w)
    {
      BitCodec.PackBitsAt(text, w);
      BitCodec.BitsValueIsZeroIff(text, 8 * w, 8);
    }
  }

  /** The entry that is handed to the driver. */
  class AgentEntry {
    const oidVal: array<uint8>
    const resVal: array<uint8>
    var oidSize: uint16
    var resSize: uint16

    constructor ()
      ensures fresh(oidVal) && fresh(resVal) && oidVal.Length == TEXT_BUFFER && resVal.Length == RES_BUFFER
      ensures oidVal != resVal
    {
      oidVal := new uint8[TEXT_BUFFER];
      resVal := new uint8[RES_BUFFER];
      oidSize, resSize := 0, 0;
    }

    /** The entry is complete: both buffers hold their contents and a terminator. */
    ghost predicate Holds(oid: Bytes, tlv: Bytes)
      reads this, oidVal, resVal
    {
      && HoldsString(oidVal, oid) && oidSize == |oid|
      && |tlv| < resVal.Length && resVal[..|tlv|] == tlv && resVal[|tlv|] == 0 && resSize == |tlv|
    }
  }

  /** Copies a string with its terminator. */
  method CopyString(source: array<uint8>, target: array<uint8>, ghost text: Bytes) returns (size: nat)
    requires source != target && HoldsString(source, text) && |text| < target.Length
    modifies target
    ensures HoldsString(target, text) && size == |text|
  {
    size := TextLength(source, text);
    for i := 0 to size
      invariant HoldsString(source, text) && target[..i] == text[..i]
    {
      target[i] := source[i];
    }
    target[size] := 0;
    assert text[..size] == text;
  }

  /** Converts a text in place, according to its type. */
  method ConvertText(kind: Kind, value: array<uint8>, ghost text: Bytes)
    requires IsEncodable(kind, text) && !IsNumeric(kind) && HoldsString(value, text)
    modifies value
    ensures var r := Converted(kind, text); |r| < value.Length && value[..|r|] == r && value[|r|] == 0
  {
    match kind {
      case ObjectId => OidCodec.ProcessString(value, text);
      case Hex => HexCodec.ConvertValue(value, text);
      case Bits => BitCodec.ConvertBitValue(value, text);
      case _ =>
    }
  }

  /** Writes the length octet and the contents octets of a converted text. */
  method PutText(value: array<uint8>, resVal: array<uint8>, ghost converted: Bytes) returns (size: uint8)
    requires value != resVal && resVal.Length == RES_BUFFER
    requires |converted| < value.Length <= TEXT_BUFFER
    requires value[..|converted|] == converted && value[|converted|] == 0
    modifies resVal
    ensures size == |CutAtZero(converted)| && size <= 127
    ensures resVal[0] == old(resVal[0]) && resVal[1] == size && resVal[2..2 + size] == CutAtZero(converted)
  {
    hide CutAtZero;
    var length := StrLen(value);
    ghost var memory := value[..];
    UpToTerminator(memory, converted, length);
    size := length;
    resVal[1] := size;
    for i := 0 to length
      invariant value[..] == memory && resVal[0] == old(resVal[0]) && resVal[1] == size
      invariant resVal[2..2 + i] == memory[..i]
    {
      resVal[2 + i] := value[i];
    }
  }

  /** Writes the length octet and the contents octets of a number. */
  method PutNumber(v: uint32, resVal: array<uint8>) returns (size: uint8)
    requires resVal.Length == RES_BUFFER
    modifies resVal
    ensures size == |IntegerCodec.Encode(v)| && size <= 127
    ensures resVal[0] == old(resVal[0]) && resVal[1] == size && resVal[2..2 + size] == IntegerCodec.Encode(v)
  {
    var byteSize := IntegerCodec.GetSize(v);
    IntegerCodec.MinimalSizeIsMinimal(v, byteSize);
    size := byteSize;
    resVal[1] := size;
    IntegerCodec.GetVal(size, resVal, 2, v);
  }

  /** Writes the length octet and the contents octets for a value of any type. */
  method PutContent(kind: Kind, value: array<uint8>, resVal: array<uint8>, ghost text: Bytes) returns (size: uint8)
    requires value != resVal && value.Length == TEXT_BUFFER && resVal.Length == RES_BUFFER
    requires HoldsString(value, text) && IsEncodable(kind, text)
    modifies value, resVal
    ensures size == |Content(kind, text)| && size <= 127
    ensures resVal[0] == old(resVal[0]) && resVal[1] == size && resVal[2..2 + size] == Content(kind, text)
  {
    hide CutAtZero, OidCodec.Atoi, Converted;
    if IsNumeric(kind) {
      var length := TextLength(value, text);
      assert value[..length] == text;
      size := PutNumber(IntegerCodec.AsUnsigned(OidCodec.Atoi(value[..length])), resVal);
    } else {
      ConvertText(kind, value, text);
      size := PutText(value, resVal, Converted(kind, text));
    }
  }

  /** Builds the entry for one line. The value buffer is converted in place. */
  method SetParam(objId: array<uint8>, kind: Kind, value: array<uint8>, ghost oid: Bytes, ghost text: Bytes)
    returns (entry: AgentEntry)
    requires objId != value && objId.Length == value.Length == TEXT_BUFFER
    requires HoldsString(objId, oid) && HoldsString(value, text) && IsEncodable(kind, text)
    modifies value
    ensures fresh(entry) && fresh(entry.oidVal) && fresh(entry.resVal)
    ensures entry.Holds(oid, Tlv(kind, text))
  {
    hide Content, IsEncodable;
    entry := new AgentEntry();
    var oidSize := CopyString(objId, entry.oidVal, oid);
    entry.oidSize := oidSize;
    entry.resVal[0] := Tag(kind);
    var size := PutContent(kind, value, entry.resVal, text);
    entry.resSize := 1 + 1 + size;
    entry.resVal[entry.resSize] := 0;
    assert entry.resVal[..2 + size] == [Tag(kind), size] + entry.resVal[2..2 + size];
  }
}
