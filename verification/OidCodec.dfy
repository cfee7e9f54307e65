/** Object identifiers in dotted decimal notation, turned into one byte for each component. */
module OidCodec {
  import opened Sequences
  import opened Devices
  import opened Strings

  const DOT: uint8 := '.' as int
  const TEMP_RESULT := 4
  const OID_RESULT := 128

  predicate IsSpace(c: uint8) { 9 <= c <= 13 || c == 32 }

  predicate IsDecimal(c: uint8) { '0' as int <= c <= '9' as int }

  /** The library conversion: white space, a sign, and then as many digits as there are. */
  function AtoiFrom(s: Bytes, i: nat): int
    requires i <= |s|
    decreases |s| - i
  {
    if i == |s| then 0
    else if IsSpace(s[i]) then AtoiFrom(s, i + 1)
    else if s[i] == '-' as int then -(DigitsFrom(s, i + 1, 0) as int)
    else if s[i] == '+' as int then DigitsFrom(s, i + 1, 0)
    else DigitsFrom(s, i, 0)
  }

  function DigitsFrom(s: Bytes, i: nat, value: nat): nat
    requires i <= |s|
    decreases |s| - i
  {
    if i < |s| && IsDecimal(s[i]) then DigitsFrom(s, i + 1, 10 * value + (s[i] - '0' as int)) else value
  }

  function Atoi(s: Bytes): int { AtoiFrom(s, 0) }

  // Decimal notation, which the conversion reads.

  /** The shortest decimal notation of a number. */
  function PrintNat(n: nat): (r: Bytes)
    ensures 1 <= |r| && forall i | 0 <= i < |r| :: IsDecimal(r[i])
  {
    if n < 10 then [n + 48] else PrintNat(n / 10) + [n % 10 + 48]
  }

  function PrintInt(x: int): (r: Bytes)
    ensures 1 <= |r|
  {
    if x < 0 then [45] + PrintNat(-x) else PrintNat(x)
  }

  /** Reading the digits of a number that stand between other text. */
  lemma {:induction false} DigitsOfPrinted(before: Bytes, n: nat, after: Bytes)
    ensures var s := before + PrintNat(n) + after;
            DigitsFrom(s, |before|, 0) == DigitsFrom(s, |before| + |PrintNat(n)|, n)
  {
    var s := before + PrintNat(n) + after;
    if n < 10 {
      assert s[|before|] == n + 48;
    } else {
      var front, digit := PrintNat(n / 10), n % 10 + 48;
      assert s == before + front + ([digit] + after);
      DigitsOfPrinted(before, n / 10, [digit] + after);
      assert s[|before| + |front|] == digit;
    }
  }

  /** Every integer is read back from its decimal notation, up to the first character that is no digit. */
  lemma AtoiOfPrintedInt(x: int, after: Bytes)
    requires |after| != 0 ==> !(48 <= after[0] <= 57)
    ensures Atoi(PrintInt(x) + after) == x
  {
    hide PrintNat;
    var s := PrintInt(x) + after;
    if x < 0 {
      assert s == [45] + PrintNat(-x) + after;
      DigitsOfPrinted([45], -x, after);
    } else {
      assert s == [] + PrintNat(x) + after;
      DigitsOfPrinted([], x, after);
    }
  }

  /** White space before a number and a plus sign do not matter. */
  lemma AtoiSkips(space: uint8, text: Bytes, n: nat)
    requires space in {9, 10, 11, 12, 13, 32}
    ensures Atoi([space] + text) == Atoi(text)
    ensures Atoi([43] + PrintNat(n)) == n
  {
    AtoiLater(space, text, 0);
    var s := [43] + PrintNat(n);
    DigitsOfPrinted([43], n, []);
    assert s + [] == s;
  }

  lemma {:induction false} AtoiLater(space: uint8, text: Bytes, i: nat)
    requires i <= |text|
    ensures AtoiFrom([space] + text, i + 1) == AtoiFrom(text, i)
    decreases |text| - i
  {
    if i < |text| {
      AtoiLater(space, text, i + 1);
      DigitsLater(space, text, i, 0);
      DigitsLater(space, text, i + 1, 0);
    }
  }

  lemma {:induction false} DigitsLater(space: uint8, text: Bytes, i: nat, value: nat)
    requires i <= |text|
    ensures DigitsFrom([space] + text, i + 1, value) == DigitsFrom(text, i, value)
    decreases |text| - i
  {
    if i < |text| && IsDecimal(text[i]) {
      DigitsLater(space, text, i + 1, 10 * value + (text[i] - '0' as int));
    }
  }

  // Splitting at the dots.

  /** The components that are complete after some characters, and the one that is being collected. */
  datatype Split = Split(done: seq<Bytes>, current: Bytes)

  function SplitText(text: Bytes): Split {
    if text == [] then Split([], [])
    else
      var before, c := SplitText(text[..|text| - 1]), text[|text| - 1];
      if c == DOT then Split(before.done + [before.current], [])
      else Split(before.done, before.current + [c])
  }

  function Components(text: Bytes): seq<Bytes> {
    var s := SplitText(text);
    s.done + [s.current]
  }

  /** The components with a dot after each. */
  function Dotted(components: seq<Bytes>): Bytes {
    if components == [] then []
    else Dotted(components[..|components| - 1]) + components[|components| - 1] + [DOT]
  }

  /** Components joined by dots. */
  function Join(components: seq<Bytes>): Bytes
    requires components != []
  {
    Dotted(components[..|components| - 1]) + components[|components| - 1]
  }

  predicate HasNoDot(component: Bytes) { DOT !in component }

  lemma {:induction false} SplitIsFaithful(text: Bytes)
    ensures var s := SplitText(text);
            && Dotted(s.done) + s.current == text
            && HasNoDot(s.current)
            && forall c | c in s.done :: HasNoDot(c)
  {
    if text != [] {
      var init, c := text[..|text| - 1], text[|text| - 1];
      SplitIsFaithful(init);
      var before := SplitText(init);
      assert text == init + [c];
      assert (before.done + [before.current])[..|before.done|] == before.done;
      Associative(Dotted(before.done), before.current, [c]);
    }
  }

  /** The components contain no dot, and joining them by dots gives the text back. */
  lemma JoinOfComponents(text: Bytes)
    ensures Join(Components(text)) == text
    ensures forall c | c in Components(text) :: HasNoDot(c)
  {
    SplitIsFaithful(text);
    var s := SplitText(text);
    assert Components(text)[..|s.done|] == s.done;
  }

  lemma SplitSnoc(text: Bytes, c: uint8)
    ensures var before := SplitText(text);
            SplitText(text + [c]) ==
            if c == DOT then Split(before.done + [before.current], [])
            else Split(before.done, before.current + [c])
  {
    assert (text + [c])[..|text|] == text;
  }

  /** Collecting a further stretch of text without dots. */
  lemma {:induction false} SplitWithoutDots(text: Bytes, more: Bytes)
    requires HasNoDot(more)
    ensures SplitText(text + more) == Split(SplitText(text).done, SplitText(text).current + more)
  {
    if more == [] {
      assert text + more == text;
      assert SplitText(text).current + more == SplitText(text).current;
    } else {
      var init, c := more[..|more| - 1], more[|more| - 1];
      assert more == init + [c];
      SplitWithoutDots(text, init);
      Associative(text, init, [c]);
      SplitSnoc(text + init, c);
      Associative(SplitText(text).current, init, [c]);
    }
  }

  lemma {:induction false} SplitOfDotted(components: seq<Bytes>)
    requires forall c | c in components :: HasNoDot(c)
    ensures SplitText(Dotted(components)) == Split(components, [])
  {
    if components != [] {
      var init, last := components[..|components| - 1], components[|components| - 1];
      assert components == init + [last];
      SplitOfDotted(init);
      SplitWithoutDots(Dotted(init), last);
      assert [] + last == last;
      SplitSnoc(Dotted(init) + last, DOT);
    }
  }

  /** Splitting inverts joining, for components without dots. */
  lemma ComponentsOfJoined(components: seq<Bytes>)
    requires components != [] && forall c | c in components :: HasNoDot(c)
    ensures Components(Join(components)) == components
  {
    var init, last := components[..|components| - 1], components[|components| - 1];
    assert components == init + [last];
    SplitOfDotted(init);
    SplitWithoutDots(Dotted(init), last);
    assert [] + last == last;
  }

  // The result.

  /** The component as it is stored in one byte. */
  function Code(component: Bytes): uint8 { Atoi(component) % 0x100 }

  function Codes(components: seq<Bytes>): (r: Bytes)
    ensures |r| == |components|
  {
    seq(|components|, i requires 0 <= i < |components| => Code(components[i]))
  }

  /** What the text becomes: the components modulo 256, up to the first that is zero. */
  function ParseOid(text: Bytes): Bytes { CutAtZero(Codes(Components(text))) }

  /** A byte in decimal notation. */
  function PrintByte(b: uint8): (r: Bytes)
    ensures 1 <= |r| <= 3 && HasNoDot(r)
  {
    if b < 10 then [b + '0' as int]
    else if b < 100 then [b / 10 + '0' as int, b % 10 + '0' as int]
    else [b / 100 + '0' as int, b / 10 % 10 + '0' as int, b % 10 + '0' as int]
  }

  lemma AtoiOfPrinted(b: uint8)
    ensures Atoi(PrintByte(b)) == b
  {
    var s := PrintByte(b);
    if b < 10 {
      assert DigitsFrom(s, 1, b) == b;
    } else if b < 100 {
      assert DigitsFrom(s, 2, b) == b;
      assert DigitsFrom(s, 1, b / 10) == b;
    } else {
      assert DigitsFrom(s, 3, b) == b;
      assert DigitsFrom(s, 2, b / 10) == b;
      assert DigitsFrom(s, 1, b / 100) == b;
    }
  }

  /** A byte is printed like any number, without leading zeros. */
  lemma PrintByteIsPrintNat(b: uint8)
    ensures PrintByte(b) == PrintNat(b)
  {
  }

  /** The text 1.30.255: the digit zero is the character 48, and the dot 46. */
  lemma PrintOfThree()
    ensures PrintOid([1, 30, 255]) == [49, 46, 51, 48, 46, 50, 53, 53]
  {
    var components := PrintedComponents([1, 30, 255]);
    assert components == [[49], [51, 48], [50, 53, 53]];
    var one: seq<Bytes>, two: seq<Bytes> := [[49]], [[49], [51, 48]];
    assert components[..2] == two && two[..1] == one;
    assert Dotted(one) == [49] + [46];
    assert Dotted(two) == [49, 46] + [51, 48] + [46];
  }

  function PrintOid(bytes: Bytes): Bytes
    requires bytes != []
  {
    Join(PrintedComponents(bytes))
  }

  function PrintedComponents(bytes: Bytes): (r: seq<Bytes>)
    ensures |r| == |bytes| && forall c | c in r :: HasNoDot(c)
  {
    seq(|bytes|, i requires 0 <= i < |bytes| => PrintByte(bytes[i]))
  }

  /** Parsing inverts printing exactly for the bytes before the first zero. */
  lemma ParseOfPrinted(bytes: Bytes)
    requires bytes != []
    ensures ParseOid(PrintOid(bytes)) == CutAtZero(bytes)
    ensures ParseOid(PrintOid(bytes)) == bytes <==> 0 !in bytes
  {
    hide Atoi, PrintByte, Components, Join;
    var components := PrintedComponents(bytes);
    ComponentsOfJoined(components);
    forall i | 0 <= i < |bytes|
      ensures Codes(components)[i] == bytes[i]
    {
      AtoiOfPrinted(bytes[i]);
    }
    assert Codes(components) == bytes;
    CutAtZeroIsLosslessIff(bytes);
  }

  function PrintedNumbers(xs: seq<int>): (r: seq<Bytes>)
    ensures |r| == |xs| && forall i | 0 <= i < |xs| :: r[i] == PrintInt(xs[i])
  {
    seq(|xs|, i requires 0 <= i < |xs| => PrintInt(xs[i]))
  }

  /** Numbers of any size and sign, joined by dots, become their remainders modulo 256 up to the first zero. */
  lemma ParseOfNumbers(xs: seq<int>, codes: Bytes)
    requires xs != [] && |codes| == |xs| && forall i | 0 <= i < |xs| :: codes[i] == xs[i] % 256
    ensures ParseOid(Join(PrintedNumbers(xs))) == CutAtZero(codes)
  {
    hide Atoi, PrintInt, Components, Join, CutAtZero;
    var components := PrintedNumbers(xs);
    forall i | 0 <= i < |xs|
      ensures HasNoDot(components[i]) && Codes(components)[i] == codes[i]
    {
      AtoiOfPrintedInt(xs[i], []);
      assert PrintInt(xs[i]) + [] == PrintInt(xs[i]);
      PrintIntHasNoDot(xs[i]);
    }
    ComponentsOfJoined(components);
    assert Codes(components) == codes;
  }

  lemma PrintIntHasNoDot(x: int)
    ensures HasNoDot(PrintInt(x))
  {
    hide PrintNat;
    var n := PrintNat(if x < 0 then -x else x);
    assert forall i | 0 <= i < |n| :: n[i] != DOT;
  }

  lemma {:induction false} JoinIsNoShorter(components: seq<Bytes>)
    requires components != [] && forall c | c in components :: |c| != 0
    ensures |components| <= |Join(components)|
  {
    DottedLength(components[..|components| - 1]);
    assert components[|components| - 1] in components;
  }

  lemma {:induction false} DottedHasNoZero(components: seq<Bytes>)
    requires forall c | c in components :: 0 !in c
    ensures 0 !in Dotted(components)
  {
    if components != [] {
      DottedHasNoZero(components[..|components| - 1]);
      assert components[|components| - 1] in components;
    }
  }

  /** What is printed can be converted as far as it fits the text buffer. */
  lemma PrintedFitsBuffers(bytes: Bytes)
    requires bytes != [] && |PrintOid(bytes)| < OID_RESULT
    ensures FitsBuffers(PrintOid(bytes)) && 0 !in PrintOid(bytes)
  {
    hide Components, Join;
    var components := PrintedComponents(bytes);
    PrintedComponentsAreShort(bytes);
    hide PrintedComponents;
    ComponentsOfJoined(components);
    JoinIsNoShorter(components);
    JoinHasNoZero(components);
  }

  lemma PrintedComponentsAreShort(bytes: Bytes)
    ensures forall c | c in PrintedComponents(bytes) :: 1 <= |c| <= 3 && 0 !in c
  {
  }

  lemma JoinHasNoZero(components: seq<Bytes>)
    requires components != [] && forall c | c in components :: 0 !in c
    ensures 0 !in Join(components)
  {
    DottedHasNoZero(components[..|components| - 1]);
    assert components[|components| - 1] in components;
  }

  /** A 32-bit number has at most ten digits. */
  lemma PrintIntIsShort(x: int)
    requires -0x8000_0000 <= x < 0x8000_0000
    ensures |PrintInt(x)| <= 11 && 0 !in PrintInt(x)
  {
    PrintNatIsShort(if x < 0 then -x else x);
    hide PrintNat;
    var n := PrintNat(if x < 0 then -x else x);
    assert forall i | 0 <= i < |n| :: n[i] != 0;
  }

  function Pow10(k: nat): nat { if k == 0 then 1 else 10 * Pow10(k - 1) }

  lemma {:induction false} PrintNatIsShortWithin(n: nat, k: nat)
    requires 1 <= k && n < Pow10(k)
    ensures |PrintNat(n)| <= k
  {
    if 10 <= n {
      assert Pow10(1) == 10;
      PrintNatIsShortWithin(n / 10, k - 1);
    }
  }

  lemma PrintNatIsShort(n: nat)
    requires n <= 0x8000_0000
    ensures |PrintNat(n)| <= 10
  {
    assert Pow10(5) == 100000;
    assert Pow10(10) == 10000000000;
    PrintNatIsShortWithin(n, 10);
  }

  // The conversion in the buffer.

  /** The two scratch buffers of the conversion hold every component and one byte for each. */
  predicate FitsBuffers(text: Bytes) {
    var components := Components(text);
    |components| < OID_RESULT && forall c | c in components :: |c| < TEMP_RESULT
  }

  /** What has been split off so far is the beginning of what will be split off in the end. */
  lemma {:induction false} SplitGrows(text: Bytes, n: nat)
    requires n <= |text|
    ensures var s, components := SplitText(text[..n]), Components(text);
            && |s.done| < |components|
            && s.done == components[..|s.done|]
            && |s.current| <= |components[|s.done|]|
    decreases |text| - n
  {
    if n == |text| {
      assert text[..n] == text;
    } else {
      SplitGrows(text, n + 1);
      assert text[..n + 1] == text[..n] + [text[n]];
      SplitSnoc(text[..n], text[n]);
      var s, next, components := SplitText(text[..n]), SplitText(text[..n + 1]), Components(text);
      if text[n] == DOT {
        assert components[|s.done|] == next.done[|s.done|] == s.current;
        assert s.done == next.done[..|s.done|];
      }
    }
  }

  lemma {:induction false} DottedLength(components: seq<Bytes>)
    ensures |Dotted(components)| >= |components|
  {
    if components != [] {
      DottedLength(components[..|components| - 1]);
    }
  }

  /** The result is never longer than the text, so that it can be written back over it. */
  lemma ParseOidFits(text: Bytes)
    ensures |ParseOid(text)| <= |text|
  {
    var components := Components(text);
    var last := components[|components| - 1];
    JoinOfComponents(text);
    DottedLength(components[..|components| - 1]);
    assert Code([]) == 0;
    hide Dotted, Components, Code;
    if |ParseOid(text)| == |components| {
      assert Codes(components)[|components| - 1] == ParseOid(text)[|components| - 1];
      assert last != [];
    }
  }

  lemma CodesSnoc(components: seq<Bytes>, component: Bytes)
    ensures Codes(components + [component]) == Codes(components) + [Code(component)]
  {
  }

  /** Splits the text, converts the components, and writes the result back over the text. */
  method ProcessString(pString: array<uint8>, ghost text: Bytes)
    requires HoldsString(pString, text) && FitsBuffers(text)
    modifies pString
    ensures HoldsString(pString, ParseOid(text))
  {
    hide Components, Codes, CutAtZero;
    var oidResult, count := ConvertComponents(pString, text);
    oidResult[count] := 0;
    ghost var codes := Codes(Components(text));
    assert oidResult[..count] == codes;
    var length := StrLen(oidResult);
    ParseOidFits(text);
    ghost var memory := oidResult[..];
    UpToTerminator(memory, codes, length);
    for i := 0 to length
      invariant oidResult[..] == memory && pString[..i] == memory[..i]
    {
      pString[i] := oidResult[i];
    }
    pString[length] := 0;
  }

  /** Converts the component that a scratch buffer holds. */
  method ConvertOne(tempResult: array<uint8>, ghost component: Bytes) returns (code: uint8)
    requires HoldsString(tempResult, component)
    ensures code == Code(component)
  {
    var length := TextLength(tempResult, component);
    code := Atoi(tempResult[..length]) % 0x100;
  }

  lemma CurrentHasNoZero(text: Bytes)
    requires 0 !in text
    ensures 0 !in SplitText(text).current
  {
    SplitIsFaithful(text);
    var s := SplitText(text);
    assert forall i | 0 <= i < |s.current| :: s.current[i] == text[|Dotted(s.done)| + i];
  }

  /** The scratch buffers hold the codes of the finished components and the characters of the current one. */
  ghost predicate Hold(tempResult: array<uint8>, collected: nat, oidResult: array<uint8>, count: nat, s: Split)
    reads tempResult, oidResult
  {
    && collected == |s.current| && collected < tempResult.Length && tempResult[..collected] == s.current
    && count == |s.done| && count < oidResult.Length && oidResult[..count] == Codes(s.done)
  }

  method AddCharacter(tempResult: array<uint8>, collected: nat, c: uint8,
                      ghost oidResult: array<uint8>, ghost count: nat, ghost s: Split)
    requires tempResult != oidResult && Hold(tempResult, collected, oidResult, count, s)
    requires collected + 1 < tempResult.Length
    modifies tempResult
    ensures Hold(tempResult, collected + 1, oidResult, count, Split(s.done, s.current + [c]))
  {
    tempResult[collected] := c;
  }

  method EndComponent(tempResult: array<uint8>, collected: nat, oidResult: array<uint8>, count: nat, ghost s: Split)
    requires tempResult != oidResult && Hold(tempResult, collected, oidResult, count, s)
    requires 0 !in s.current && count + 1 < oidResult.Length
    modifies tempResult, oidResult
    ensures Hold(tempResult, 0, oidResult, count + 1, Split(s.done + [s.current], []))
  {
    tempResult[collected] := 0;
    var code := ConvertOne(tempResult, s.current);
    CodesSnoc(s.done, s.current);
    oidResult[count] := code;
  }

  /** How the split changes with the character at `idx`, and that the scratch buffers have room for it. */
  lemma SplitStep(text: Bytes, idx: nat)
    requires idx <= |text| && 0 !in text && FitsBuffers(text)
    ensures var s := SplitText(text[..idx]);
            && 0 !in s.current && |s.done| + 1 < OID_RESULT
            && (idx == |text| ==> Components(text) == s.done + [s.current])
            && (idx < |text| ==>
                  SplitText(text[..idx + 1]) ==
                  (if text[idx] == DOT then Split(s.done + [s.current], [])
                   else Split(s.done, s.current + [text[idx]])))
            && (idx < |text| && text[idx] != DOT ==> |s.current| + 1 < TEMP_RESULT)
  {
    SplitGrows(text, idx);
    CurrentHasNoZero(text[..idx]);
    if idx < |text| {
      assert text[..idx + 1] == text[..idx] + [text[idx]];
      SplitSnoc(text[..idx], text[idx]);
      SplitGrows(text, idx + 1);
    } else {
      assert text[..idx] == text;
    }
  }

  /** The loop over the characters, the terminator included. */
  method ConvertComponents(pString: array<uint8>, ghost text: Bytes) returns (oidResult: array<uint8>, count: nat)
    requires HoldsString(pString, text) && FitsBuffers(text)
    ensures fresh(oidResult) && oidResult.Length == OID_RESULT && count < OID_RESULT
    ensures count == |Components(text)| && oidResult[..count] == Codes(Components(text))
  {
    hide SplitText, Components, FitsBuffers, Codes;
    var tempResult := new uint8[TEMP_RESULT];
    oidResult := new uint8[OID_RESULT];
    var length := TextLength(pString, text);
    var collected, idx := 0, 0;
    count := 0;
    ghost var s := Split([], []);
    SplitOfNothing(text);
    while idx < length + 1
      invariant idx <= length + 1 && HoldsString(pString, text)
      invariant Hold(tempResult, collected, oidResult, count, s)
      invariant if idx <= length then s == SplitText(text[..idx]) else s.done == Components(text)
    {
      SplitStep(text, idx);
      if pString[idx] != DOT && pString[idx] != 0 {
        AddCharacter(tempResult, collected, pString[idx], oidResult, count, s);
        s := Split(s.done, s.current + [pString[idx]]);
        collected := collected + 1;
      } else {
        EndComponent(tempResult, collected, oidResult, count, s);
        s := Split(s.done + [s.current], []);
        count := count + 1;
        collected := 0;
      }
      idx := idx + 1;
    }
  }

  lemma SplitOfNothing(text: Bytes)
    ensures SplitText(text[..0]) == Split([], []) && Codes([]) == []
  {
  }
}
