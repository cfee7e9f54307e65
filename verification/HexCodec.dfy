/** Hexadecimal strings, decoded in the buffer that holds them. */
module HexCodec {
  import opened Devices
  import opened Strings

  /** The value of a digit, upper or lower case; any other character is left as it is. */
  function DigitValue(c: uint8): uint8 {
    if '0' as int <= c <= '9' as int then c - '0' as int
    else if 'A' as int <= c <= 'F' as int then c - 'A' as int + 10
    else if 'a' as int <= c <= 'f' as int then c - 'a' as int + 10
    else c
  }

  predicate IsHexDigit(c: uint8) {
    '0' as int <= c <= '9' as int || 'A' as int <= c <= 'F' as int || 'a' as int <= c <= 'f' as int
  }

  predicate IsHex(text: Bytes) { forall i | 0 <= i < |text| :: IsHexDigit(text[i]) }

  function Digits(text: Bytes): (r: Bytes)
    ensures |r| == |text|
  {
    seq(|text|, i requires 0 <= i < |text| => DigitValue(text[i]))
  }

  predicate AreNibbles(digits: Bytes) { forall i | 0 <= i < |digits| :: digits[i] < 16 }

  function PairUp(digits: Bytes): (r: Bytes)
    requires AreNibbles(digits)
    ensures |r| == |digits| / 2
  {
    seq(|digits| / 2, i requires 0 <= i < |digits| / 2 && AreNibbles(digits) =>
      16 * digits[2 * i] + digits[2 * i + 1])
  }

  /** One byte for every pair of digits; a digit that is left over at the end is dropped. */
  function DecodeHex(text: Bytes): (r: Bytes)
    requires IsHex(text)
    ensures |r| == |text| / 2
  {
    PairUp(Digits(text))
  }

  lemma OrOfNibbles(high: uint8, low: uint8)
    requires low < 16
    ensures Or(Shl(high, 4), low) == high * 16 + low
  {
    assert Pow2(4) == 16;
    OrOfDisjoint(high, 4, low);
  }

  function LowerDigit(v: int): uint8
    requires 0 <= v < 16
  {
    if v < 10 then '0' as int + v else 'a' as int + v - 10
  }

  function PrintHex(bytes: Bytes): (r: Bytes)
    ensures |r| == 2 * |bytes|
  {
    seq(2 * |bytes|, i requires 0 <= i < 2 * |bytes| =>
      LowerDigit(if i % 2 == 0 then bytes[i / 2] / 16 else bytes[i / 2] % 16))
  }

  function LowerChar(c: uint8): uint8 {
    if 'A' as int <= c <= 'Z' as int then c - 'A' as int + 'a' as int else c
  }

  function LowerCase(text: Bytes): (r: Bytes)
    ensures |r| == |text|
  {
    seq(|text|, i requires 0 <= i < |text| => LowerChar(text[i]))
  }

  lemma PrintOfDigit(c: uint8)
    requires IsHexDigit(c)
    ensures DigitValue(c) < 16 && LowerDigit(DigitValue(c)) == LowerChar(c)
  {
  }

  lemma DigitsAreNibbles(text: Bytes)
    requires IsHex(text)
    ensures AreNibbles(Digits(text))
  {
  }

  /** Printing what was decoded gives the lower-cased text back, without an odd last digit. */
  lemma PrintOfDecoded(text: Bytes)
    requires IsHex(text)
    ensures PrintHex(DecodeHex(text)) == LowerCase(text[..2 * (|text| / 2)])
  {
    hide DigitValue, LowerDigit, LowerChar, IsHexDigit;
    DigitsAreNibbles(text);
    var bytes := DecodeHex(text);
    forall w | 0 <= w < |text| / 2
      ensures LowerDigit(bytes[w] / 16) == LowerChar(text[2 * w])
      ensures LowerDigit(bytes[w] % 16) == LowerChar(text[2 * w + 1])
    {
      PairUpAt(Digits(text), w);
      PrintOfDigit(text[2 * w]);
      PrintOfDigit(text[2 * w + 1]);
    }
    forall i | 0 <= i < 2 * |bytes|
      ensures PrintHex(bytes)[i] == LowerChar(text[i])
    {
      assert i == 2 * (i / 2) + i % 2;
    }
  }

  /** Decoding inverts printing. */
  lemma DecodeOfPrinted(bytes: Bytes)
    ensures IsHex(PrintHex(bytes)) && DecodeHex(PrintHex(bytes)) == bytes
  {
    forall i | 0 <= i < |bytes|
      ensures DecodeHex(PrintHex(bytes))[i] == bytes[i]
    {
      assert PrintHex(bytes)[2 * i] == LowerDigit(bytes[i] / 16);
      assert PrintHex(bytes)[2 * i + 1] == LowerDigit(bytes[i] % 16);
    }
  }

  /** The first digit of a pair is the more significant one; both cases of a letter mean the same. */
  lemma DecodedPair(text: Bytes, w: nat, high: nat, low: nat)
    requires IsHex(text) && w < |text| / 2 && high < 16 && low < 16
    requires text[2 * w] in {"0123456789abcdef"[high] as int, "0123456789ABCDEF"[high] as int}
    requires text[2 * w + 1] in {"0123456789abcdef"[low] as int, "0123456789ABCDEF"[low] as int}
    ensures DecodeHex(text)[w] == 16 * high + low
  {
    DigitsAreNibbles(text);
    PairUpAt(Digits(text), w);
    DigitOf(text[2 * w], high);
    DigitOf(text[2 * w + 1], low);
    hide DigitValue, IsHexDigit;
  }

  lemma DigitOf(c: uint8, v: nat)
    requires v < 16 && c in {"0123456789abcdef"[v] as int, "0123456789ABCDEF"[v] as int}
    ensures DigitValue(c) == v
  {
  }

  /** Replaces every character before the terminator by its digit value. */
  method Atoi(arr: array<uint8>, ghost text: Bytes)
    requires HoldsString(arr, text)
    modifies arr
    ensures arr[..|text|] == Digits(text)
    ensures forall j | |text| <= j < arr.Length :: arr[j] == old(arr[j])
  {
    var i := 0;
    while arr[i] != 0
      invariant i <= |text|
      invariant forall j | 0 <= j < i :: arr[j] == DigitValue(text[j])
      invariant forall j | i <= j < arr.Length :: arr[j] == old(arr[j])
      decreases |text| - i
    {
      assert i < |text| && arr[i] == text[i];
      if '0' as int <= arr[i] <= '9' as int {
        arr[i] := arr[i] - '0' as int;
      } else if 'A' as int <= arr[i] <= 'F' as int {
        arr[i] := arr[i] - 'A' as int + 10;
      } else if 'a' as int <= arr[i] <= 'f' as int {
        arr[i] := arr[i] - 'a' as int + 10;
      }
      i := i + 1;
    }
  }

  /**
    Packs the digits at the front of the buffer two by two into bytes, over the digits themselves. The
    index variable is one byte wide, so there must be fewer than 255 digits.
   */
  method PackPairs(value: array<uint8>, size: nat)
    requires 1 <= size < 255 && size < value.Length && AreNibbles(value[..size])
    modifies value
    ensures value[..size / 2] == PairUp(old(value[..size]))
    ensures value[size / 2] == 0
  {
    hide Or, Shl, PairUp, AreNibbles;
    ghost var digits := value[..size];
    ghost var pairs := PairUp(digits);
    var idx: uint8, write := 0, 0;
    while idx < size - 1
      invariant idx == 2 * write && idx <= size
      invariant forall w | 0 <= w < write :: value[w] == pairs[w]
      invariant forall j | idx <= j < size :: value[j] == digits[j]
    {
      var high, low := value[idx], value[idx + 1];
      PairUpAt(digits, write);
      OrOfNibbles(high, low);
      value[write] := Or(Shl(high, 4), low);
      write := write + 1;
      idx := idx + 2;
    }
    value[write] := 0;
  }

  lemma PairUpAt(digits: Bytes, w: nat)
    requires AreNibbles(digits) && w < |digits| / 2
    ensures digits[2 * w] < 16 && digits[2 * w + 1] < 16
    ensures PairUp(digits)[w] == 16 * digits[2 * w] + digits[2 * w + 1]
  {
  }

  /** Decodes in place. */
  method ConvertValue(value: array<uint8>, ghost text: Bytes)
    requires HoldsString(value, text) && 1 <= |text| < 255 && IsHex(text)
    modifies value
    ensures value[..|text| / 2] == DecodeHex(text)
    ensures value[|text| / 2] == 0
  {
    var size := TextLength(value, text);
    Atoi(value, text);
    PackPairs(value, size);
  }
}
