/** The hexadecimal printer: a byte buffer written as a NUL-terminated string of
    two digits a byte, and the decoder that undoes it. */
module HexPrinter {
  import opened Common

  const INT32_MAX := 0x7FFF_FFFF
  const HEX_TABLE := "0123456789abcdef"

  function HighNibble(b: bv8): bv8 {
    (b & 0xF0) >> 4
  }

  function LowNibble(b: bv8): bv8 {
    b & 0x0F
  }

  lemma NibblesAreSmall(b: bv8)
    ensures HighNibble(b) < 16 && LowNibble(b) < 16
    ensures (HighNibble(b) as int) < 16 && (LowNibble(b) as int) < 16
  {
  }

  lemma NibblesRejoin(b: bv8)
    ensures Join(HighNibble(b), LowNibble(b)) == b
  {
  }

  function Join(high: bv8, low: bv8): bv8 {
    (high << 4) | low
  }

  function HexDigit(n: bv8): char
    requires n < 16
  {
    HEX_TABLE[n as int]
  }

  function DigitsOf(b: bv8): (s: string)
    ensures |s| == 2
  {
    NibblesAreSmall(b);
    [HexDigit(HighNibble(b)), HexDigit(LowNibble(b))]
  }

  /** Two digits for each byte, in order. */
  function HexOf(bytes: seq<bv8>): (s: string)
    ensures |s| == 2 * |bytes|
  {
    if bytes == [] then [] else HexOf(bytes[..|bytes| - 1]) + DigitsOf(bytes[|bytes| - 1])
  }

  // ---------------------------------------------------------------- the decoder

  function DigitValue(c: char): Option<bv8> {
    if '0' <= c <= '9' then Some((c as int - '0' as int) as bv8)
    else if 'a' <= c <= 'f' then Some((c as int - 'a' as int + 10) as bv8)
    else None
  }

  /** Reads a string of digit pairs back into bytes. */
  function Decode(s: string): Option<seq<bv8>> {
    if s == [] then Some([])
    else if |s| == 1 then None
    else
      var (high, low) := (DigitValue(s[|s| - 2]), DigitValue(s[|s| - 1]));
      var front := Decode(s[..|s| - 2]);
      if high.None? || low.None? || front.None? then None
      else Some(front.value + [Join(high.value, low.value)])
  }

  lemma DigitReadsBack(n: bv8)
    requires n < 16
    ensures DigitValue(HexDigit(n)) == Some(n)
    ensures HexDigit(n) != '\0'
  {
    var i := n as int;
    assert i as bv8 == n;
    assert 0 <= i < 16;
  }

  lemma DigitsReadBack(b: bv8)
    ensures var d := DigitsOf(b);
            && DigitValue(d[0]).Some? && DigitValue(d[1]).Some?
            && Join(DigitValue(d[0]).value, DigitValue(d[1]).value) == b
            && d[0] != '\0' && d[1] != '\0'
  {
    NibblesAreSmall(b);
    DigitReadsBack(HighNibble(b));
    DigitReadsBack(LowNibble(b));
    NibblesRejoin(b);
  }

  lemma {:induction false} HexHasNoNul(bytes: seq<bv8>)
    ensures '\0' !in HexOf(bytes)
  {
    if bytes != [] {
      HexHasNoNul(bytes[..|bytes| - 1]);
      DigitsReadBack(bytes[|bytes| - 1]);
    }
  }

  lemma DecodeLastPair(s: string, high: char, low: char)
    requires Decode(s).Some? && DigitValue(high).Some? && DigitValue(low).Some?
    ensures Decode(s + [high, low])
            == Some(Decode(s).value + [Join(DigitValue(high).value, DigitValue(low).value)])
  {
    assert (s + [high, low])[..|s|] == s;
  }

  lemma DecodeOneMore(init: seq<bv8>, b: bv8)
    requires Decode(HexOf(init)) == Some(init)
    ensures Decode(HexOf(init) + DigitsOf(b)) == Some(init + [b])
  {
    var d := DigitsOf(b);
    DigitsReadBack(b);
    assert d == [d[0], d[1]];
    DecodeLastPair(HexOf(init), d[0], d[1]);
  }

  lemma HexOfOneMore(init: seq<bv8>, b: bv8)
    ensures HexOf(init + [b]) == HexOf(init) + DigitsOf(b)
  {
    assert (init + [b])[..|init|] == init;
  }

  ghost predicate ReadsBack(bytes: seq<bv8>) {
    Decode(HexOf(bytes)) == Some(bytes)
  }

  lemma OneMoreReadsBack(init: seq<bv8>, b: bv8)
    requires ReadsBack(init)
    ensures ReadsBack(init + [b])
  {
    DecodeOneMore(init, b);
    HexOfOneMore(init, b);
  }

  lemma {:induction false} HexReadsBack(bytes: seq<bv8>)
    ensures ReadsBack(bytes)
  {
    if bytes != [] {
      var init, b := bytes[..|bytes| - 1], bytes[|bytes| - 1];
      HexReadsBack(init);
      OneMoreReadsBack(init, b);
      assert bytes == init + [b];
    }
  }

  // ---------------------------------------------------------------- the number it spells

  /** What a lower-case hexadecimal digit counts, and 16 for any other character. */
  function DigitNumber(c: char): nat {
    if '0' <= c <= '9' then c as int - '0' as int
    else if 'a' <= c <= 'f' then c as int - 'a' as int + 10
    else 16
  }

  /** The number that the digits spell, the first being the most significant. */
  function NumberOf(s: string): nat {
    if s == [] then 0 else 16 * NumberOf(s[..|s| - 1]) + DigitNumber(s[|s| - 1])
  }

  /** The number that the bytes hold, the first being the most significant. */
  function NumberOfBytes(bytes: seq<bv8>): nat {
    if bytes == [] then 0 else 256 * NumberOfBytes(bytes[..|bytes| - 1]) + bytes[|bytes| - 1] as int
  }

  lemma DigitCounts(n: bv8)
    requires n < 16
    ensures DigitNumber(HexDigit(n)) == n as int
  {
    var i := n as int;
    assert 0 <= i < 16;
  }

  lemma DigitsCountTheByte(b: bv8)
    ensures var d := DigitsOf(b);
            && DigitNumber(d[0]) < 16 && DigitNumber(d[1]) < 16
            && 16 * DigitNumber(d[0]) + DigitNumber(d[1]) == b as int
  {
    NibblesAreSmall(b);
    DigitCounts(HighNibble(b));
    DigitCounts(LowNibble(b));
    assert b as int == HighNibble(b) as int * 16 + LowNibble(b) as int;
  }

  lemma TwoMoreDigits(s: string, high: char, low: char)
    ensures NumberOf(s + [high, low]) == 256 * NumberOf(s) + 16 * DigitNumber(high) + DigitNumber(low)
  {
    var longer := s + [high];
    assert (s + [high, low])[..|s| + 1] == longer;
    assert longer[..|s|] == s;
  }

  /** The printed string is the number of the input in base 16, in lower-case digits, the most
      significant first. */
  lemma {:induction false} HexSpellsTheNumber(bytes: seq<bv8>)
    ensures NumberOf(HexOf(bytes)) == NumberOfBytes(bytes)
    ensures forall i :: 0 <= i < |HexOf(bytes)| ==> DigitNumber(HexOf(bytes)[i]) < 16
  {
    if bytes != [] {
      var init, b := bytes[..|bytes| - 1], bytes[|bytes| - 1];
      HexSpellsTheNumber(init);
      DigitsCountTheByte(b);
      assert DigitsOf(b) == [DigitsOf(b)[0], DigitsOf(b)[1]];
      TwoMoreDigits(HexOf(init), DigitsOf(b)[0], DigitsOf(b)[1]);
    }
  }

  // ---------------------------------------------------------------- the printer

  /** A nonempty input whose digits fit with their terminator, judged over the integers. */
  predicate HasRoom(numLen: U32, hexStrLen: U32) {
    0 < numLen && 2 * numLen + 1 <= hexStrLen
  }

  /** The requests the printer serves. */
  predicate Fits(numLen: U32, hexStrLen: U32) {
    HasRoom(numLen, hexStrLen) && numLen < INT32_MAX
  }

  /** There is one request with room that the printer does not serve: the largest. */
  lemma OnlyLargestIsRefused(numLen: U32, hexStrLen: U32)
    ensures HasRoom(numLen, hexStrLen) && !Fits(numLen, hexStrLen)
            <==> numLen == 0x7FFF_FFFF && hexStrLen == 0xFFFF_FFFF
  {
  }

  lemma {:induction false} HexAt(bytes: seq<bv8>, i: nat)
    requires i < |bytes|
    ensures HexOf(bytes)[2 * i] == DigitsOf(bytes[i])[0]
    ensures HexOf(bytes)[2 * i + 1] == DigitsOf(bytes[i])[1]
  {
    if i < |bytes| - 1 {
      HexAt(bytes[..|bytes| - 1], i);
    }
  }

  /** The length product is a 32-bit one; it is only reached where it cannot wrap. The
      input buffer is read only and does not overlap the output. */
  method Num2HexStr(num: Option<seq<bv8>>, numLen: U32, hexStr: array?<char>, hexStrLen: U32) returns (status: Status)
    requires num.Some? ==> numLen <= |num.value|
    requires hexStr != null ==> hexStrLen <= hexStr.Length
    modifies hexStr
    ensures status == InvalidParam <==> num == None || hexStr == null || hexStrLen == 0
    ensures status in {Success, InvalidParam}
    ensures status == InvalidParam && hexStr != null ==> hexStr[..] == old(hexStr[..])
    ensures status == Success && Fits(numLen, hexStrLen) ==>
              hexStr[..] == HexOf(num.value[..numLen]) + ['\0'] + old(hexStr[2 * numLen + 1..])
    ensures status == Success && !Fits(numLen, hexStrLen) ==> hexStr[..] == ['\0'] + old(hexStr[1..])
  {
    if num == None || hexStr == null || hexStrLen == 0 {
      return InvalidParam;
    }
    if numLen == 0 || numLen >= INT32_MAX || WrapU32(numLen * 2) >= hexStrLen {
      hexStr[0] := '\0';
      return Success;
    }
    PrintDigits(num.value[..numLen], hexStr);
    status := Success;
  }

  method PrintDigits(bytes: seq<bv8>, hexStr: array<char>)
    requires 2 * |bytes| < hexStr.Length
    modifies hexStr
    ensures hexStr[..] == HexOf(bytes) + ['\0'] + old(hexStr[2 * |bytes| + 1..])
  {
    var p := 0;
    ghost var start, hex := hexStr[..], HexOf(bytes);
    for i := 0 to |bytes|
      invariant p == 2 * i
      invariant forall k :: 0 <= k < hexStr.Length ==> hexStr[k] == if k < p then hex[k] else start[k]
    {
      NibblesAreSmall(bytes[i]);
      HexAt(bytes, i);
      hexStr[p] := HexDigit(HighNibble(bytes[i]));
      hexStr[p + 1] := HexDigit(LowNibble(bytes[i]));
      p := p + 2;
    }
    hexStr[p] := '\0';
  }

  /** Whatever follows the terminator, decoding the printed string gives the input back. */
  lemma PrintedStringDecodes(bytes: seq<bv8>, rest: seq<char>)
    ensures Decode(CStr(HexOf(bytes) + ['\0'] + rest)) == Some(bytes)
  {
    HexReadsBack(bytes);
    HexHasNoNul(bytes);
    CStrStopsAtNul(HexOf(bytes), rest);
  }
}
