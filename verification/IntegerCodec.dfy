/** Integers as the shortest big-endian byte sequence that holds their 32-bit pattern. */
module IntegerCodec {
  import opened Devices
  import opened Strings

  type int32 = x: int | -0x8000_0000 <= x < 0x8000_0000

  /** The bit pattern of a signed value, read as an unsigned one. */
  function AsUnsigned(x: int32): uint32 { if x < 0 then x + 0x1_0000_0000 else x }

  function BitLength(v: nat): nat { if v == 0 then 0 else 1 + BitLength(v / 2) }

  lemma {:induction false} BitLengthAtMost(v: nat, k: nat)
    ensures BitLength(v) <= k <==> v < Pow2(k)
  {
    if v != 0 && k != 0 {
      BitLengthAtMost(v / 2, k - 1);
    }
  }

  lemma BytePowers()
    ensures Pow2(8) == 0x100 && Pow2(16) == 0x1_0000 && Pow2(24) == 0x100_0000 && Pow2(32) == 0x1_0000_0000
  {
    assert Pow2(4) == 16;
    assert Pow2(8) == 0x100;
    assert Pow2(12) == 0x1000;
    assert Pow2(16) == 0x1_0000;
    assert Pow2(20) == 0x10_0000;
    assert Pow2(24) == 0x100_0000;
    assert Pow2(28) == 0x1000_0000;
  }

  /** `size` bytes hold `v`, and no smaller positive number of bytes does. */
  predicate IsMinimalSize(v: uint32, size: nat) {
    1 <= size && v < Pow2(8 * size) && (size == 1 || Pow2(8 * (size - 1)) <= v)
  }

  /** Counts the bits of the value and turns the count into a number of bytes on the way. */
  method GetSize(v: uint32) returns (byteSize: uint16)
    ensures IsMinimalSize(v, byteSize) && byteSize <= 4
  {
    var bitCount: uint16, tempvalue := 0, v;
    byteSize := 1;
    BytePowers();
    BitLengthAtMost(v, 32);
    while tempvalue != 0
      invariant bitCount <= 8 && 1 <= byteSize && (bitCount == 0 ==> byteSize == 1)
      invariant 8 * (byteSize - 1) + bitCount + BitLength(tempvalue) == BitLength(v)
    {
      tempvalue := tempvalue / 2;
      bitCount := bitCount + 1;
      if bitCount > 8 {
        byteSize := byteSize + 1;
        bitCount := bitCount - 8;
      }
    }
    BitLengthAtMost(v, 8 * byteSize);
    BitLengthAtMost(v, 8 * (byteSize - 1));
  }

  /** The four bytes of a 32-bit variable on the big-endian target. */
  function BigEndian(v: uint32): (r: Bytes)
    ensures |r| == 4
  {
    [v / 0x100_0000, v / 0x1_0000 % 0x100, v / 0x100 % 0x100, v % 0x100]
  }

  function MinimalSize(v: uint32): (size: nat)
    ensures 1 <= size <= 4
  {
    if v < 0x100 then 1 else if v < 0x1_0000 then 2 else if v < 0x100_0000 then 3 else 4
  }

  lemma MinimalSizeIsMinimal(v: uint32, size: nat)
    ensures IsMinimalSize(v, size) <==> size == MinimalSize(v)
  {
    BytePowers();
    assert Pow2(0) == 1;
    if 5 <= size {
      Pow2IsMonotone(32, 8 * (size - 1));
    }
  }

  lemma {:induction false} Pow2IsMonotone(a: nat, b: nat)
    requires a <= b
    ensures Pow2(a) <= Pow2(b)
  {
    if a < b {
      Pow2IsMonotone(a, b - 1);
    }
  }

  /** The contents octets of a value: the last bytes of its 32-bit pattern. */
  function Encode(v: uint32): (r: Bytes)
    ensures |r| == MinimalSize(v)
  {
    BigEndian(v)[4 - MinimalSize(v)..]
  }

  /** The number that big-endian bytes write. */
  function Decode(bytes: Bytes): nat {
    if bytes == [] then 0 else 256 * Decode(bytes[..|bytes| - 1]) + bytes[|bytes| - 1]
  }

  /** The bytes read as a two's complement number (section 8.3.3 of ITU-T X.690). */
  function DecodeSigned(bytes: Bytes): int {
    if bytes != [] && bytes[0] >= 128 then Decode(bytes) - Pow2(8 * |bytes|) else Decode(bytes)
  }

  lemma DecodeOne(a: uint8)
    ensures Decode([a]) == a
  {
    assert [a][..0] == [];
  }

  lemma DecodeTwo(a: uint8, b: uint8)
    ensures Decode([a, b]) == 256 * a + b
  {
    assert [a, b][..1] == [a];
    DecodeOne(a);
  }

  lemma DecodeThree(a: uint8, b: uint8, c: uint8)
    ensures Decode([a, b, c]) == 0x1_0000 * a + 256 * b + c
  {
    assert [a, b, c][..2] == [a, b];
    DecodeTwo(a, b);
  }

  lemma DecodeFour(a: uint8, b: uint8, c: uint8, d: uint8)
    ensures Decode([a, b, c, d]) == 0x100_0000 * a + 0x1_0000 * b + 256 * c + d
  {
    assert [a, b, c, d][..3] == [a, b, c];
    DecodeThree(a, b, c);
  }

  lemma BytesAddUp(v: uint32)
    ensures var b := BigEndian(v);
            v == 0x100_0000 * (b[0] as int) + 0x1_0000 * (b[1] as int) + 256 * (b[2] as int) + b[3]
  {
    assert v / 0x100 / 0x100 == v / 0x1_0000;
    assert v / 0x1_0000 / 0x100 == v / 0x100_0000;
  }

  /** The first octet of the encoding is the value without its other octets. */
  lemma LeadingOctet(v: uint32)
    ensures var size := MinimalSize(v);
            Encode(v)[0] ==
            v / if size == 1 then 1 else if size == 2 then 0x100 else if size == 3 then 0x1_0000 else 0x100_0000
  {
    assert Encode(v)[0] == BigEndian(v)[4 - MinimalSize(v)];
  }

  /** Decoding inverts encoding for every 32-bit value, and no leading byte is superfluous. */
  lemma DecodeOfEncoded(v: uint32)
    ensures Decode(Encode(v)) == v
    ensures |Encode(v)| > 1 ==> Encode(v)[0] != 0
  {
    var b := BigEndian(v);
    BytesAddUp(v);
    LeadingOctet(v);
    var size := MinimalSize(v);
    hide BigEndian, Decode;
    if size == 1 {
      assert b[3..] == [b[3]];
      DecodeOne(b[3]);
    } else if size == 2 {
      assert b[2..] == [b[2], b[3]];
      DecodeTwo(b[2], b[3]);
    } else if size == 3 {
      assert b[1..] == [b[1], b[2], b[3]];
      DecodeThree(b[1], b[2], b[3]);
    } else {
      assert b[0..] == [b[0], b[1], b[2], b[3]];
      DecodeFour(b[0], b[1], b[2], b[3]);
    }
  }

  /** The least value whose top bit lies at the top of `size` bytes. */
  function TopBit(size: nat): nat
    requires 1 <= size <= 4
  {
    if size == 1 then 0x80 else if size == 2 then 0x8000 else if size == 3 then 0x80_0000 else 0x8000_0000
  }

  lemma TopBitIsPower(size: nat)
    requires 1 <= size <= 4
    ensures Pow2(8 * size - 1) == TopBit(size) && Pow2(8 * size) == 2 * TopBit(size)
  {
    BytePowers();
    assert Pow2(8 * size) == 2 * Pow2(8 * size - 1);
    assert size == 1 || size == 2 || size == 3 || size == 4;
  }

  lemma LeadingOctetIsHighIff(v: uint32)
    ensures Encode(v)[0] >= 128 <==> v >= TopBit(MinimalSize(v))
  {
    LeadingOctet(v);
  }

  /** Whether the first octet of the encoding has its most significant bit set. */
  lemma LeadingBit(v: uint32)
    ensures Encode(v)[0] >= 128 <==> v != 0 && BitLength(v) == 8 * MinimalSize(v)
  {
    var size := MinimalSize(v);
    LeadingOctetIsHighIff(v);
    TopBitIsPower(size);
    assert v < 2 * TopBit(size);
    BitLengthAtMost(v, 8 * size);
    BitLengthAtMost(v, 8 * size - 1);
    hide Encode, BitLength, Pow2;
  }

  lemma BitLengthIsMultipleOfEightIff(v: uint32)
    requires v != 0
    ensures BitLength(v) % 8 == 0 <==> BitLength(v) == 8 * MinimalSize(v)
  {
    var size := MinimalSize(v);
    MinimalSizeIsMinimal(v, size);
    BitLengthAtMost(v, 8 * size);
    BitLengthAtMost(v, 8 * (size - 1));
    BitLengthAtMost(v, 0);
    hide BitLength, Pow2, MinimalSize;
    var length := BitLength(v);
    assert 8 * (size - 1) < length <= 8 * size;
    assert length % 8 == 0 ==> length / 8 == size;
  }

  /**
    As an INTEGER the encoding means the value that was given exactly when that value is not a positive
    number whose bit length is a multiple of eight; otherwise it is read as the value minus a power of
    256. Negative values always take four octets.
   */
  lemma SignedReadingIff(x: int32)
    ensures var v := AsUnsigned(x);
            var bytes := Encode(v);
            && (DecodeSigned(bytes) == x <==> !(x > 0 && BitLength(x) % 8 == 0))
            && (DecodeSigned(bytes) == if x > 0 && BitLength(x) % 8 == 0 then x - Pow2(8 * |bytes|) else x)
            && (x < 0 ==> |bytes| == 4)
  {
    var v := AsUnsigned(x);
    DecodeOfEncoded(v);
    LeadingBit(v);
    BytePowers();
    if v != 0 {
      BitLengthIsMultipleOfEightIff(v);
    }
    if x < 0 {
      BitLengthAtMost(v, 31);
      BitLengthAtMost(v, 32);
      assert Pow2(31) == 0x8000_0000;
    }
  }

  /** The least number that is misread: 128 comes out as -128. */
  lemma SmallestMisread()
    ensures Encode(128) == [128] && DecodeSigned(Encode(128)) == -128
    ensures forall x: int32 | 0 <= x < 128 :: DecodeSigned(Encode(x)) == x
  {
    DecodeOne(128);
    forall x: int32 | 0 <= x < 128
      ensures DecodeSigned(Encode(x)) == x
    {
      DecodeOne(x);
      assert Encode(x) == [x];
    }
  }

  /** Copies the last `size` bytes of the value's memory. */
  method GetVal(size: nat, target: array<uint8>, offset: nat, v: uint32)
    requires size <= 4 && offset + size <= target.Length
    modifies target
    ensures target[offset..offset + size] == BigEndian(v)[4 - size..]
    ensures forall i | 0 <= i < target.Length && !(offset <= i < offset + size) :: target[i] == old(target[i])
  {
    var memory := BigEndian(v);
    var p, t, left := 4 - size, offset, size;
    while left > 0
      invariant p == 4 - left && t == offset + size - left && 0 <= left <= size
      invariant forall i | offset <= i < t :: target[i] == memory[4 - size + i - offset]
      invariant forall i | 0 <= i < target.Length && !(offset <= i < t) :: target[i] == old(target[i])
    {
      target[t] := memory[p];
      p := p + 1;
      t := t + 1;
      left := left - 1;
    }
  }
}
