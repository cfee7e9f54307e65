/** C strings in byte buffers, and the byte operations of the text decoders. */
module Strings {
  import opened Devices

  type Bytes = seq<uint8>

  /** The bytes before the first zero. */
  function CutAtZero(s: Bytes): (r: Bytes)
    ensures |r| <= |s| && r == s[..|r|]
    ensures 0 !in r
    ensures |r| < |s| ==> s[|r|] == 0
  {
    if s == [] || s[0] == 0 then [] else [s[0]] + CutAtZero(s[1..])
  }

  /** Nothing is cut off exactly when there is no zero. */
  lemma CutAtZeroIsLosslessIff(s: Bytes)
    ensures CutAtZero(s) == s <==> 0 !in s
  {
    var r := CutAtZero(s);
    if |r| == |s| {
      assert r == s;
    }
  }

  /** The string up to a zero that follows a part without zeros is that part. */
  lemma CutAtTerminator(s: Bytes, n: nat)
    requires n < |s| && s[n] == 0 && forall i | 0 <= i < n :: s[i] != 0
    ensures CutAtZero(s) == s[..n]
  {
    var r := CutAtZero(s);
    assert forall i | 0 <= i < |r| :: r[i] == s[i] && r[i] in r;
  }

  /** `buf` holds `text` as a C string. */
  ghost predicate HoldsString(buf: array<uint8>, text: Bytes)
    reads buf
  {
    |text| < buf.Length && buf[..|text|] == text && buf[|text|] == 0 && 0 !in text
  }

  /** The length of the C string in a buffer. */
  method StrLen(buf: array<uint8>) returns (n: nat)
    requires exists i | 0 <= i < buf.Length :: buf[i] == 0
    ensures n < buf.Length && buf[n] == 0 && forall i | 0 <= i < n :: buf[i] != 0
    ensures buf[..n] == CutAtZero(buf[..])
  {
    n := 0;
    while buf[n] != 0
      invariant n < buf.Length && forall i | 0 <= i < n :: buf[i] != 0
      decreases buf.Length - n
    {
      n := n + 1;
    }
    CutAtTerminator(buf[..], n);
  }

  /** The length of a C string whose text is known. */
  method TextLength(buf: array<uint8>, ghost text: Bytes) returns (n: nat)
    requires HoldsString(buf, text)
    ensures n == |text|
  {
    n := StrLen(buf);
    CutAtTerminator(buf[..], |text|);
  }

  /** The string in a memory that starts with `data` and a terminator ends at the first zero of `data`. */
  lemma UpToTerminator(memory: Bytes, data: Bytes, length: nat)
    requires |data| < |memory| && memory[..|data|] == data && memory[|data|] == 0
    requires length < |memory| && memory[length] == 0 && forall i | 0 <= i < length :: memory[i] != 0
    ensures memory[..length] == CutAtZero(data)
  {
    assert forall i | 0 <= i < |data| :: memory[i] == data[i];
    if length < |data| {
      CutAtTerminator(data, length);
    } else {
      assert length == |data|;
      assert 0 !in data;
      CutAtZeroIsLosslessIff(data);
    }
  }

  function Pow2(k: nat): (r: nat)
    ensures 1 <= r
  {
    if k == 0 then 1 else 2 * Pow2(k - 1)
  }

  /** Shift to the left. */
  function Shl(x: nat, k: nat): nat { x * Pow2(k) }

  /** Bitwise or. */
  function Or(a: nat, b: nat): nat {
    if a == 0 then b
    else if b == 0 then a
    else (if a % 2 == 1 || b % 2 == 1 then 1 else 0) + 2 * Or(a / 2, b / 2)
  }

  /** Without common bits, or is addition. */
  lemma {:induction false} OrOfDisjoint(q: nat, k: nat, b: nat)
    requires b < Pow2(k)
    ensures Or(Shl(q, k), b) == q * Pow2(k) + b
  {
    if k != 0 && q != 0 && b != 0 {
      var a := q * Pow2(k);
      assert a == 2 * (q * Pow2(k - 1));
      assert a / 2 == q * Pow2(k - 1) && a % 2 == 0;
      OrOfDisjoint(q, k - 1, b / 2);
      assert a != 0;
    }
  }
}
