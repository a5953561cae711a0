/** The JavaScript string helpers of html/js/base58.js and html/js/cn_util.js: thrown errors, slices, hexadecimal text. */
module JsText {
  import opened Options
  import opened Radix

  // The strings the source throws.
  datatype Error =
    | InvalidHexLength
    | InvalidInput
    | InvalidInputLength
    | InvalidBlockLength
    | InvalidBlockSize
    | InvalidSymbol
    | Overflow
    | Overflow2
    | InvalidEncodedLength
    | InvalidAddressPrefix
    | InvalidChecksum
    | InvalidDerivationLength
    | VarintTooLong

  // A value, or the string thrown instead of it; `:-` passes a throw on.
  datatype Result<+T> = Ok(value: T) | Err(error: Error) {
    predicate IsFailure() {
      Err?
    }

    function PropagateFailure<U>(): Result<U>
      requires Err?
    {
      Err(error)
    }

    function Extract(): T
      requires Ok?
    {
      value
    }
  }

  // An element of a Uint8Array.
  type byte = x: nat | x < 256

  // str.slice(from, to), whose bounds are clamped to the string.
  function Slice(s: string, from: nat, to: nat): (r: string)
    ensures from <= to <= |s| ==> r == s[from..to]
    ensures |s| <= from ==> r == ""
  {
    if from >= |s| || to <= from then "" else s[from..if to < |s| then to else |s|]
  }

  predicate IsLowerHex(c: char) {
    '0' <= c <= '9' || 'a' <= c <= 'f'
  }

  predicate IsHex(c: char) {
    IsLowerHex(c) || 'A' <= c <= 'F'
  }

  ghost predicate LowerHex(s: string) {
    forall i | 0 <= i < |s| :: IsLowerHex(s[i])
  }

  // The value of a hexadecimal digit.
  function HexValue(c: char): (v: nat)
    requires IsHex(c)
    ensures v < 16
  {
    if c <= '9' then c as int - '0' as int
    else if c <= 'F' then c as int - 'A' as int + 10
    else c as int - 'a' as int + 10
  }

  // One digit of n.toString(16).
  function HexDigit(v: nat): (c: char)
    requires v < 16
    ensures IsLowerHex(c) && HexValue(c) == v
  {
    if v < 10 then (v + '0' as int) as char else (v - 10 + 'a' as int) as char
  }

  // n.toString(16) of a byte.
  function ToString16(b: byte): string {
    if b < 16 then [HexDigit(b)] else [HexDigit(b / 16), HexDigit(b % 16)]
  }

  // ("0" + n.toString(16)).slice(-2)
  function HexOfByte(b: byte): (h: string)
    ensures |h| == 2 && LowerHex(h)
    ensures HexValue(h[0]) == b / 16 && HexValue(h[1]) == b % 16
  {
    var padded := "0" + ToString16(b);
    padded[|padded| - 2..]
  }

  // A white space character that parseInt skips.
  predicate IsSpace(c: char) {
    || '\t' <= c <= '\r' || c in " \U{A0}\U{1680}\U{2028}\U{2029}\U{202F}\U{205F}\U{3000}\U{FEFF}"
    || '\U{2000}' <= c <= '\U{200A}'
  }

  // parseInt(c1 + c2, 16) stored into a Uint8Array: a sign or white space may come first, digits end at the first
  // other character, and no digit at all is NaN, which is stored as 0.
  function ByteOfPair(c1: char, c2: char): byte {
    if IsHex(c1) then if IsHex(c2) then HexValue(c1) * 16 + HexValue(c2) else HexValue(c1)
    else if IsHex(c2) && (IsSpace(c1) || c1 == '+') then HexValue(c2)
    else if IsHex(c2) && c1 == '-' then (256 - HexValue(c2)) % 256
    else 0
  }

  // The text of a byte array.
  function HexOf(bin: seq<byte>): (h: string)
    ensures |h| == 2 * |bin|
  {
    if bin == [] then "" else HexOfByte(bin[0]) + HexOf(bin[1..])
  }

  // The byte array of a text.
  function BytesOf(hex: string): (bin: seq<byte>)
    requires |hex| % 2 == 0
    ensures |bin| == |hex| / 2
  {
    if hex == "" then [] else [ByteOfPair(hex[0], hex[1])] + BytesOf(hex[2..])
  }

  lemma {:induction false} ByteAt(hex: string, i: nat)
    requires |hex| % 2 == 0 && i < |hex| / 2
    ensures BytesOf(hex)[i] == ByteOfPair(hex[2 * i], hex[2 * i + 1])
  {
    hide ByteOfPair;
    if i > 0 {
      ByteAt(hex[2..], i - 1);
    }
  }

  // hextobin
  method HexToBin(hex: string) returns (r: Result<seq<byte>>)
    ensures r == if |hex| % 2 == 0 then Ok(BytesOf(hex)) else Err(InvalidHexLength)
  {
    if |hex| % 2 != 0 {
      return Err(InvalidHexLength);
    }
    var res := new byte[|hex| / 2](_ => 0);
    hide ByteOfPair, BytesOf;
    for i := 0 to |hex| / 2
      invariant forall k | 0 <= k < i :: res[k] == BytesOf(hex)[k]
    {
      ByteAt(hex, i);
      res[i] := ByteOfPair(hex[2 * i], hex[2 * i + 1]);
    }
    assert res[..] == BytesOf(hex);
    r := Ok(res[..]);
  }

  // bintohex
  method BinToHex(bin: seq<byte>) returns (out: string)
    ensures out == HexOf(bin)
  {
    out := "";
    for i := 0 to |bin|
      invariant HexOf(bin) == out + HexOf(bin[i..])
    {
      assert bin[i..][1..] == bin[i + 1..];
      out := out + HexOfByte(bin[i]);
    }
  }

  lemma PairOfByte(b: byte)
    ensures ByteOfPair(HexOfByte(b)[0], HexOfByte(b)[1]) == b
  {
  }

  // The digits in order, in both cases.
  lemma DigitsInOrder(v: nat)
    requires v < 16
    ensures HexDigit(v) == "0123456789abcdef"[v]
    ensures HexValue("0123456789abcdef"[v]) == v && HexValue("0123456789ABCDEF"[v]) == v
  {
  }

  // ---------- parseInt ----------

  function SkipSpaces(s: string): string {
    if s != "" && IsSpace(s[0]) then SkipSpaces(s[1..]) else s
  }

  // The longest run of hexadecimal digits at the front.
  function LeadingDigits(s: string): (d: string)
    ensures forall i | 0 <= i < |d| :: IsHex(d[i])
  {
    if s != "" && IsHex(s[0]) then [s[0]] + LeadingDigits(s[1..]) else ""
  }

  function HexNumber(d: string): nat
    requires forall i | 0 <= i < |d| :: IsHex(d[i])
  {
    if d == "" then 0 else HexNumber(d[..|d| - 1]) * 16 + HexValue(d[|d| - 1])
  }

  // parseInt(s, 16): white space, a sign, 0x, and as many digits as there are; None stands for NaN.
  function ParseInt16(s: string): Option<int> {
    var trimmed := SkipSpaces(s);
    var negative := trimmed != "" && trimmed[0] == '-';
    var unsigned := if negative || (trimmed != "" && trimmed[0] == '+') then trimmed[1..] else trimmed;
    var text := if |unsigned| >= 2 && unsigned[0] == '0' && unsigned[1] in "xX" then unsigned[2..] else unsigned;
    var digits := LeadingDigits(text);
    if digits == "" then None
    else Some(if negative then -(HexNumber(digits) as int) else HexNumber(digits) as int)
  }

  // What a Uint8Array keeps of a number.
  function ToUint8(n: Option<int>): byte {
    match n
    case None => 0
    case Some(i) => i % 256
  }

  // Each byte is what parseInt makes of its two characters.
  lemma PairIsParseInt(c1: char, c2: char)
    ensures ByteOfPair(c1, c2) == ToUint8(ParseInt16([c1, c2]))
  {
    var s := [c1, c2];
    assert s[1..] == [c2] && s[2..] == "";
    RunOfDigits(c1);
    RunOfDigits(c2);
    hide HexValue;
    if IsHex(c1) {
      assert LeadingDigits(s) == if IsHex(c2) then s else [c1];
      assert s[..1] == [c1] && (IsHex(c2) ==> HexNumber(s) == HexNumber([c1]) * 16 + HexValue(c2));
    }
  }

  lemma RunOfDigits(c: char)
    ensures LeadingDigits([c]) == if IsHex(c) then [c] else ""
    ensures IsHex(c) ==> HexNumber([c]) == HexValue(c)
    ensures SkipSpaces([c]) == if IsSpace(c) then "" else [c]
    ensures IsHex(c) ==> !IsSpace(c)
  {
    assert [c][1..] == "" && [c][..0] == "";
  }

  function ToLower(s: string): (l: string)
    ensures |l| == |s|
    ensures forall i | 0 <= i < |s| :: l[i] == if 'A' <= s[i] <= 'F' then (s[i] as int - 'A' as int + 'a' as int) as char else s[i]
  {
    seq(|s|, i requires 0 <= i < |s| =>
      if 'A' <= s[i] <= 'F' then (s[i] as int - 'A' as int + 'a' as int) as char else s[i])
  }

  // Upper-case digits are read like lower-case ones.
  lemma {:induction false} CaseDoesNotMatter(hex: string)
    requires |hex| % 2 == 0
    ensures BytesOf(ToLower(hex)) == BytesOf(hex)
  {
    hide ToLower;
    if hex != "" {
      assert ToLower(hex)[2..] == ToLower(hex[2..]);
      CaseDoesNotMatter(hex[2..]);
    }
  }

  // ---------- there and back ----------

  // Reading back what was printed.
  lemma {:induction false} BytesOfHexOf(bin: seq<byte>)
    ensures BytesOf(HexOf(bin)) == bin
  {
    hide ByteOfPair, HexOfByte;
    if bin != [] {
      PairOfByte(bin[0]);
      BytesOfHexOf(bin[1..]);
      assert HexOf(bin)[2..] == HexOf(bin[1..]);
    }
  }

  lemma {:induction false} HexOfIsLower(bin: seq<byte>)
    ensures LowerHex(HexOf(bin))
  {
    if bin != [] {
      HexOfIsLower(bin[1..]);
    }
  }

  lemma HexDigitOfValue(c: char, d: char)
    requires IsLowerHex(c) && IsLowerHex(d) && HexValue(c) == HexValue(d)
    ensures c == d
  {
  }

  lemma PairText(c1: char, c2: char)
    requires IsLowerHex(c1) && IsLowerHex(c2)
    ensures HexOfByte(ByteOfPair(c1, c2)) == [c1, c2]
  {
    var h := HexOfByte(ByteOfPair(c1, c2));
    HexDigitOfValue(c1, h[0]);
    HexDigitOfValue(c2, h[1]);
  }

  lemma {:induction false} LowerHexSurvives(hex: string)
    requires |hex| % 2 == 0 && LowerHex(hex)
    ensures HexOf(BytesOf(hex)) == hex
  {
    hide ByteOfPair, HexOfByte;
    if hex != "" {
      LowerHexSurvives(hex[2..]);
      PairText(hex[0], hex[1]);
      assert hex == [hex[0], hex[1]] + hex[2..];
    }
  }

  // Printing back what was read: exactly the lower-case hexadecimal strings come back unchanged.
  lemma HexOfBytesOf(hex: string)
    requires |hex| % 2 == 0
    ensures HexOf(BytesOf(hex)) == hex <==> LowerHex(hex)
  {
    HexOfIsLower(BytesOf(hex));
    if LowerHex(hex) {
      LowerHexSurvives(hex);
    }
  }

  lemma {:induction false} HexOfConcat(a: seq<byte>, b: seq<byte>)
    ensures HexOf(a + b) == HexOf(a) + HexOf(b)
  {
    if a == [] {
      assert a + b == b;
    } else {
      assert (a + b)[1..] == a[1..] + b;
      HexOfConcat(a[1..], b);
    }
  }

  lemma {:induction false} BytesOfConcat(a: string, b: string)
    requires |a| % 2 == 0 && |b| % 2 == 0
    ensures BytesOf(a + b) == BytesOf(a) + BytesOf(b)
  {
    if a == "" {
      assert a + b == b;
    } else {
      assert (a + b)[2..] == a[2..] + b;
      BytesOfConcat(a[2..], b);
    }
  }
}
