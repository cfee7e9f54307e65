/** Strings of binary digits, packed into bytes in the buffer that holds them. */
module BitCodec {
  import opened Devices
  import opened Strings
  import HexCodec

  /** Binary digits, eight for each byte. */
  predicate IsBitString(text: Bytes) {
    |text| % 8 == 0 && forall i | 0 <= i < |text| :: text[i] == '0' as int || text[i] == '1' as int
  }

  function Bit(c: uint8): nat { if c == '1' as int then 1 else 0 }

  /** The number written by the `n` digits from position `start` on, most significant digit first. */
  function BitsValue(text: Bytes, start: nat, n: nat): (v: nat)
    requires start + n <= |text|
    ensures v < Pow2(n)
  {
    if n == 0 then 0 else 2 * BitsValue(text, start, n - 1) + Bit(text[start + n - 1])
  }

  lemma Pow2OfEight()
    ensures Pow2(8) == 256
  {
    assert Pow2(4) == 16;
  }

  /** One byte for every eight digits. */
  function PackBits(text: Bytes): (r: Bytes)
    requires IsBitString(text)
    ensures |r| == |text| / 8
  {
    seq(|text| / 8, w requires 0 <= w < |text| / 8 => Pow2OfEight(); BitsValue(text, 8 * w, 8))
  }

  lemma PackBitsAt(text: Bytes, w: nat)
    requires IsBitString(text) && w < |text| / 8
    ensures PackBits(text)[w] == BitsValue(text, 8 * w, 8)
  {
  }

  /** The digits of a byte sequence, most significant bit of each byte first. */
  function ExpandBits(bytes: Bytes): (r: Bytes)
    ensures |r| == 8 * |bytes|
  {
    seq(8 * |bytes|, i requires 0 <= i < 8 * |bytes| =>
      if bytes[i / 8] / Pow2(7 - i % 8) % 2 == 1 then '1' as int else '0' as int)
  }

  lemma HalvePow2(v: nat, b: nat, k: nat)
    requires b < 2
    ensures (2 * v + b) / Pow2(k + 1) == v / Pow2(k)
  {
    var m := Pow2(k);
    var q, r := v / m, v % m;
    assert 2 * v + b == q * (2 * m) + (2 * r + b);
    assert 0 <= 2 * r + b < 2 * m;
    QuotientIs(2 * v + b, 2 * m, q, 2 * r + b);
  }

  lemma QuotientIs(a: nat, m: nat, q: nat, r: nat)
    requires r < m && a == q * m + r
    ensures a / m == q
  {
    var d := a / m;
    assert (d - q) * m == r - a % m;
    OnlyZeroMultiple(d - q, m);
  }

  lemma OnlyZeroMultiple(x: int, m: int)
    requires 0 < m && -m < x * m < m
    ensures x == 0
  {
  }

  /** Digit `j` of the number written by `n` digits. */
  lemma {:induction false} DigitOfBitsValue(text: Bytes, start: nat, n: nat, j: nat)
    requires start + n <= |text| && j < n
    ensures BitsValue(text, start, n) / Pow2(n - 1 - j) % 2 == Bit(text[start + j])
  {
    var v, b := BitsValue(text, start, n - 1), Bit(text[start + n - 1]);
    if j == n - 1 {
      assert Pow2(0) == 1;
    } else {
      DigitOfBitsValue(text, start, n - 1, j);
      HalvePow2(v, b, n - 2 - j);
    }
  }

  /** Some digit is a one exactly when the number is not zero. */
  lemma {:induction false} BitsValueIsZeroIff(text: Bytes, start: nat, n: nat)
    requires start + n <= |text|
    ensures BitsValue(text, start, n) != 0 <==> '1' as int in text[start..start + n]
  {
    if n != 0 {
      BitsValueIsZeroIff(text, start, n - 1);
      assert text[start..start + n] == text[start..start + n - 1] + [text[start + n - 1]];
    }
  }

  /** Expanding the packed bytes gives the digits back. */
  lemma ExpandOfPacked(text: Bytes)
    requires IsBitString(text)
    ensures ExpandBits(PackBits(text)) == text
  {
    var bytes := PackBits(text);
    forall i | 0 <= i < |text|
      ensures ExpandBits(bytes)[i] == text[i]
    {
      DigitOfBitsValue(text, 8 * (i / 8), 8, i % 8);
    }
  }

  lemma BitsValueStep(text: Bytes, start: nat, n: nat)
    requires start + n < |text| && text[start + n] in {48, 49}
    ensures BitsValue(text, start, 0) == 0
    ensures BitsValue(text, start, n + 1) == 2 * BitsValue(text, start, n) + (text[start + n] - 48)
  {
  }

  /** The eight digits of a byte with their weights. The digits are the characters 48 and 49. */
  lemma PackedByte(text: Bytes, w: nat)
    requires IsBitString(text) && w < |text| / 8
    ensures var s := 8 * w;
            PackBits(text)[w] ==
            128 * (text[s] - 48) + 64 * (text[s + 1] - 48) + 32 * (text[s + 2] - 48) + 16 * (text[s + 3] - 48)
            + 8 * (text[s + 4] - 48) + 4 * (text[s + 5] - 48) + 2 * (text[s + 6] - 48) + (text[s + 7] - 48)
  {
    hide PackBits, BitsValue, Pow2;
    PackBitsAt(text, w);
    NextFourDigits(text, 8 * w, 0);
    NextFourDigits(text, 8 * w, 4);
  }

  lemma NextFourDigits(text: Bytes, start: nat, n: nat)
    requires start + n + 4 <= |text| && forall i | 0 <= i < |text| :: text[i] in {48, 49}
    ensures var s := start + n;
            BitsValue(text, start, n + 4) ==
            16 * BitsValue(text, start, n)
            + 8 * (text[s] - 48) + 4 * (text[s + 1] - 48) + 2 * (text[s + 2] - 48) + (text[s + 3] - 48)
    ensures BitsValue(text, start, 0) == 0
  {
    hide Pow2, BitsValue;
    BitsValueStep(text, start, n);
    BitsValueStep(text, start, n + 1);
    BitsValueStep(text, start, n + 2);
    BitsValueStep(text, start, n + 3);
  }

  /** Halving a quotient by a power of two. */
  lemma HalveQuotient(b: nat, k: nat)
    ensures b / Pow2(k + 1) == b / Pow2(k) / 2
  {
    var m := Pow2(k);
    var q, r := b / m, b % m;
    assert q == 2 * (q / 2) + q % 2;
    HalvedQuotient(q / 2, q % 2, m, r);
    QuotientIs(b, 2 * m, q / 2, q % 2 * m + r);
  }

  lemma HalvedQuotient(h: nat, bit: nat, m: nat, r: nat)
    requires bit < 2 && r < m
    ensures (2 * h + bit) * m + r == h * (2 * m) + (bit * m + r) && bit * m + r < 2 * m
  {
  }

  /** The first digits of an expanded byte are its upper bits. */
  lemma {:induction false} UpperBits(bytes: Bytes, w: nat, n: nat)
    requires w < |bytes| && n <= 8
    ensures BitsValue(ExpandBits(bytes), 8 * w, n) == bytes[w] / Pow2(8 - n)
  {
    if n == 0 {
      Pow2OfEight();
    } else {
      hide Pow2;
      UpperBits(bytes, w, n - 1);
      HalveQuotient(bytes[w], 8 - n);
      ExpandedDigit(bytes, w, n - 1);
      hide ExpandBits;
    }
  }

  lemma ExpandedDigit(bytes: Bytes, w: nat, i: nat)
    requires w < |bytes| && i < 8
    ensures Bit(ExpandBits(bytes)[8 * w + i]) == bytes[w] / Pow2(7 - i) % 2
  {
    hide Pow2;
    assert (8 * w + i) / 8 == w && (8 * w + i) % 8 == i;
  }

  /** Packing the digits of a byte sequence gives the sequence back. */
  lemma PackOfExpanded(bytes: Bytes)
    ensures IsBitString(ExpandBits(bytes)) && PackBits(ExpandBits(bytes)) == bytes
  {
    var text := ExpandBits(bytes);
    assert IsBitString(text);
    assert Pow2(0) == 1;
    forall w | 0 <= w < |bytes|
      ensures PackBits(text)[w] == bytes[w]
    {
      PackBitsAt(text, w);
      UpperBits(bytes, w, 8);
    }
  }

  /** The digits of a byte that have been read, shifted to where they belong. */
  function Collected(text: Bytes, start: nat, n: nat): nat
    requires start + n <= |text| && n <= 8
  {
    Shl(BitsValue(text, start, n), 8 - n)
  }

  /** Putting one more digit below the digits collected so far. */
  lemma AddDigit(text: Bytes, start: nat, n: nat)
    requires n < 8 && start + n < |text|
    ensures var next := Or(Collected(text, start, n), Shl(Bit(text[start + n]), 7 - n));
            next == Collected(text, start, n + 1) && next < 256
  {
    var v, bit := BitsValue(text, start, n), Bit(text[start + n]);
    assert BitsValue(text, start, n + 1) == 2 * v + bit;
    hide Or, BitsValue, Pow2;
    OrDigit(v, bit, 7 - n);
    BelowProduct(2 * v + bit, n + 1, 7 - n);
  }

  lemma OrDigit(v: nat, bit: nat, k: nat)
    requires bit < 2
    ensures Or(Shl(v, k + 1), Shl(bit, k)) == (2 * v + bit) * Pow2(k)
  {
    var p := Pow2(k);
    assert Pow2(k + 1) == 2 * p;
    hide Or, Pow2;
    Distribute(v, bit, p);
    OrOfDisjoint(v, k + 1, bit * p);
  }

  lemma Distribute(v: nat, bit: nat, p: nat)
    requires bit < 2 && 1 <= p
    ensures v * (2 * p) + bit * p == (2 * v + bit) * p
    ensures bit * p < 2 * p
  {
  }

  lemma {:induction false} Pow2OfSum(a: nat, b: nat)
    ensures Pow2(a + b) == Pow2(a) * Pow2(b)
  {
    if a == 0 {
      assert Pow2(0) == 1;
    } else {
      Pow2OfSum(a - 1, b);
      DoubleProduct(Pow2(a - 1), Pow2(b));
    }
  }

  lemma DoubleProduct(x: nat, y: nat)
    ensures 2 * (x * y) == (2 * x) * y
  {
  }

  lemma StrictlyBelowProduct(v: nat, x: nat, y: nat)
    requires v < x && 1 <= y
    ensures v * y < x * y
  {
  }

  lemma BelowProduct(v: nat, a: nat, b: nat)
    requires v < Pow2(a) && a + b == 8
    ensures v * Pow2(b) < 256
  {
    Pow2OfSum(a, b);
    Pow2OfEight();
    hide Pow2;
    StrictlyBelowProduct(v, Pow2(a), Pow2(b));
  }

  /** Packs in place; the write position stays behind every digit that is still to be read. */
  method ConvertBitValue(value: array<uint8>, ghost text: Bytes)
    requires HoldsString(value, text) && |text| < 248 && IsBitString(text)
    modifies value
    ensures value[..|text| / 8] == PackBits(text)
    ensures value[|text| / 8] == 0
  {
    hide Or, Shl, Collected, PackBits, BitsValue, Pow2, CutAtZero;
    var size := TextLength(value, text);
    HexCodec.Atoi(value, text);
    DigitsAreBits(text);
    hide HexCodec.Digits, IsBitString;
    ghost var packed := PackBits(text);
    var idx: uint8, bitCount: uint8, tempval: uint8 := 0, 8, 0;
    var read, write := 0, 0;
    StartOfByte(text, 0);
    while idx < size
      invariant idx == 8 * write <= size && bitCount <= 8
      invariant |packed| == size / 8 && size % 8 == 0
      invariant idx < size ==> read == idx + 8 - bitCount
      invariant idx < size ==> tempval == Collected(text, idx, 8 - bitCount)
      invariant idx == size ==> tempval == 0
      invariant forall w | 0 <= w < write :: value[w] == packed[w]
      invariant forall j | idx <= j < size :: value[j] == Bit(text[j])
      decreases size - idx, bitCount
    {
      if bitCount == 0 {
        EndOfByte(text, idx, write);
        value[write] := tempval;
        tempval := 0;
        idx := idx + 8;
        bitCount := 8;
        write := write + 1;
        if idx < size {
          StartOfByte(text, idx);
        }
      } else {
        AddDigit(text, idx, 8 - bitCount);
        tempval := Or(tempval, Shl(value[read], bitCount - 1));
        read := read + 1;
        bitCount := bitCount - 1;
      }
    }
    value[write] := 0;
  }

  lemma DigitsAreBits(text: Bytes)
    requires IsBitString(text)
    ensures |text| % 8 == 0
    ensures forall j | 0 <= j < |text| :: HexCodec.Digits(text)[j] == Bit(text[j])
  {
  }

  lemma StartOfByte(text: Bytes, start: nat)
    requires start <= |text|
    ensures Collected(text, start, 0) == 0
  {
  }

  lemma EndOfByte(text: Bytes, start: nat, w: nat)
    requires start + 8 <= |text| && IsBitString(text) && start == 8 * w
    ensures Collected(text, start, 8) == PackBits(text)[w]
  {
  }
}
