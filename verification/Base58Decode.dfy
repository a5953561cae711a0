/** The decoding half of html/js/base58.js. */
module Base58Decode {
  import opened Radix
  import opened JsText
  import opened Base58

  // ---------- what a block of text means ----------

  ghost predicate IsSymbol(c: byte) {
    IndexOf(Alphabet(), c) >= 0
  }

  ghost function Digit(c: byte): (d: nat)
    requires IsSymbol(c)
    ensures d < 58 && d == IndexOf(Alphabet(), c)
  {
    IndexOf(Alphabet(), c)
  }

  ghost predicate AllSymbols(t: seq<byte>) {
    forall i | 0 <= i < |t| :: IsSymbol(t[i])
  }

  ghost function DigitsOf(t: seq<byte>): (d: seq<nat>)
    requires AllSymbols(t)
    ensures |d| == |t| && AllBelow(d, 58)
  {
    seq(|t|, i requires 0 <= i < |t| => Digit(t[i]))
  }

  // The number a block of symbols spells.
  ghost function BlockNumber(t: seq<byte>): nat
    requires AllSymbols(t)
  {
    Value(DigitsOf(t), 58)
  }

  // encoded_block_sizes.indexOf(length)
  function DecodedSize(length: nat): (n: int)
    ensures -1 <= n <= 8
    ensures n >= 0 ==> EncodedSize(n) == length
    ensures n < 0 ==> forall k | 0 <= k <= 8 :: EncodedSize(k) != length
  {
    var n := IndexOf(SIZES, length);
    assert forall k | 0 <= k <= 8 :: EncodedSize(k) in SIZES;
    n
  }

  lemma DecodedSizeOf(n: nat)
    requires n <= 8
    ensures DecodedSize(EncodedSize(n)) == n
  {
    SizesDiffer(n, DecodedSize(EncodedSize(n)));
  }

  lemma FullSizes()
    ensures EncodedSize(0) == 0 && EncodedSize(8) == 11
    ensures forall n | 0 < n < 8 :: 0 < EncodedSize(n) < 11
  {
  }

  lemma SizesDiffer(m: nat, n: nat)
    requires m <= 8 && n <= 8 && EncodedSize(m) == EncodedSize(n)
    ensures m == n
  {
  }

  // The loop of decode_block: cells i - 1 down to 0 are still to be read.
  function ScanDigits(data: seq<byte>, i: nat, resNum: nat, order: nat): (r: Result<nat>)
    requires i <= |data|
    ensures r != Err(InvalidEncodedLength)
  {
    if i == 0 then Ok(resNum)
    else
      var digit := IndexOf(Alphabet(), data[i - 1]);
      if digit < 0 then Err(InvalidSymbol)
      else
        var product := MulAdd(order, digit, resNum);
        if product > UINT64_MAX then Err(Overflow) else ScanDigits(data, i - 1, product, order * 58)
  }

  // The bytes of one block of text.
  function DecodedBlock(data: seq<byte>): (r: Result<seq<byte>>)
    ensures r.Ok? ==> |data| > 0 && DecodedSize(|data|) > 0 && |r.value| == DecodedSize(|data|)
    ensures r != Err(InvalidEncodedLength)
  {
    if |data| < 1 || |data| > 11 then Err(InvalidBlockLength)
    else
      var size := DecodedSize(|data|);
      if size <= 0 then Err(InvalidBlockSize)
      else
        match ScanDigits(data, |data|, 0, 1)
        case Err(e) => Err(e)
        case Ok(n) => if size < 8 && Pow(256, size) <= n then Err(Overflow2) else Ok(BytesBe(n, size))
  }

  // What decode_block promises to accept: symbols only, a tabled length, and a number that fits. A full block may
  // be worth 2^64 itself.
  ghost predicate Accepted(data: seq<byte>) {
    && DecodedSize(|data|) > 0
    && AllSymbols(data)
    && (if |data| < 11 then BlockNumber(data) < Pow(256, DecodedSize(|data|)) else BlockNumber(data) <= UINT64_MAX)
  }

  lemma PrependSymbols(c: byte, rest: seq<byte>)
    ensures AllSymbols([c] + rest) <==> IsSymbol(c) && AllSymbols(rest)
  {
    hide IsSymbol;
    var t := [c] + rest;
    if AllSymbols(t) {
      assert IsSymbol(t[0]);
      assert forall k | 0 <= k < |rest| :: rest[k] == t[k + 1];
    }
  }

  lemma PrependDigits(c: byte, rest: seq<byte>)
    requires IsSymbol(c) && AllSymbols(rest) && AllSymbols([c] + rest)
    ensures DigitsOf([c] + rest) == [Digit(c)] + DigitsOf(rest)
  {
    hide Digit, AllSymbols;
  }

  // A symbol put in front of a block.
  lemma Prepend(c: byte, rest: seq<byte>)
    requires IsSymbol(c) && AllSymbols(rest)
    ensures AllSymbols([c] + rest)
    ensures BlockNumber([c] + rest) == MulAdd(Pow(58, |rest|), Digit(c), BlockNumber(rest))
  {
    PrependSymbols(c, rest);
    PrependDigits(c, rest);
    hide IsSymbol, Digit, AllSymbols, DigitsOf, Value, Pow, MulAdd;
    ValueOfFirst([Digit(c)] + DigitsOf(rest), 58);
    assert ([Digit(c)] + DigitsOf(rest))[1..] == DigitsOf(rest);
  }

  lemma {:induction false} SuffixIsLess(t: seq<byte>, i: nat)
    requires AllSymbols(t) && i <= |t|
    ensures AllSymbols(t[i..]) && BlockNumber(t[i..]) <= BlockNumber(t)
  {
    hide AllSymbols, BlockNumber, IndexOf, Alphabet;
    if i == 0 {
      assert t[0..] == t;
    } else {
      SuffixIsLess(t, i - 1);
      assert t[i - 1..] == [t[i - 1]] + t[i..];
      PrependSymbols(t[i - 1], t[i..]);
      Prepend(t[i - 1], t[i..]);
    }
  }

  // The scan of cells i - 1 down to 0, given the number of the cells from i on.
  ghost function Scan(t: seq<byte>, i: nat): Result<nat>
    requires i <= |t| && AllSymbols(t[i..])
  {
    ScanDigits(t, i, BlockNumber(t[i..]), Pow(58, |t| - i))
  }

  lemma ScanStep(t: seq<byte>, i: nat)
    requires 0 < i <= |t| && AllSymbols(t[i..])
    ensures if !IsSymbol(t[i - 1]) then Scan(t, i) == Err(InvalidSymbol)
            else AllSymbols(t[i - 1..])
                 && Scan(t, i) == if BlockNumber(t[i - 1..]) > UINT64_MAX then Err(Overflow) else Scan(t, i - 1)
  {
    var order := Pow(58, |t| - i);
    assert Pow(58, |t| - (i - 1)) == order * 58;
    hide AllSymbols, BlockNumber, IndexOf, Alphabet, Pow, MulAdd;
    assert t[i - 1..] == [t[i - 1]] + t[i..];
    if IsSymbol(t[i - 1]) {
      Prepend(t[i - 1], t[i..]);
    }
  }

  // The running overflow check decides exactly what a check of the final number would.
  lemma {:induction false} ScanIsNumber(t: seq<byte>, i: nat)
    requires i <= |t| && AllSymbols(t[i..]) && BlockNumber(t[i..]) <= UINT64_MAX
    ensures Scan(t, i).Ok? <==> AllSymbols(t) && BlockNumber(t) <= UINT64_MAX
    ensures Scan(t, i).Ok? ==> Scan(t, i).value == BlockNumber(t)
    decreases i
  {
    if i == 0 {
      assert t[0..] == t;
    } else {
      ScanStep(t, i);
      hide BlockNumber, IsSymbol, Scan;
      if IsSymbol(t[i - 1]) {
        if BlockNumber(t[i - 1..]) <= UINT64_MAX {
          ScanIsNumber(t, i - 1);
        } else if AllSymbols(t) {
          SuffixIsLess(t, i - 1);
        }
      }
    }
  }

  // decode_block accepts exactly the blocks it should.
  lemma BlockAcceptance(t: seq<byte>)
    ensures DecodedBlock(t).Ok? <==> Accepted(t)
    ensures Accepted(t) ==> DecodedBlock(t) == Ok(BytesBe(BlockNumber(t), DecodedSize(|t|)))
  {
    hide ScanDigits, IndexOf, Alphabet;
    if DecodedSize(|t|) > 0 {
      var n := DecodedSize(|t|);
      assert t[|t|..] == [];
      assert DigitsOf(t[|t|..]) == [];
      ScanIsNumber(t, |t|);
      BlockFits(n);
      if AllSymbols(t) {
        ValueBound(DigitsOf(t), 58);
      }
    }
  }

  // The cells from i on are symbols and spell a number of at most 2^64: the scan gets past them.
  ghost predicate Readable(t: seq<byte>, i: nat) {
    i <= |t| && AllSymbols(t[i..]) && BlockNumber(t[i..]) <= UINT64_MAX
  }

  // Cell j is the first, from the right, that is no symbol.
  ghost predicate BadSymbolAt(t: seq<byte>, j: nat) {
    j < |t| && Readable(t, j + 1) && !IsSymbol(t[j])
  }

  // Cell j is the first, from the right, with which the number exceeds 2^64.
  ghost predicate OverflowAt(t: seq<byte>, j: nat) {
    j < |t| && Readable(t, j + 1) && IsSymbol(t[j]) && !Readable(t, j)
  }

  lemma {:induction false} ScanReaches(t: seq<byte>, i: nat, j: nat)
    requires j <= i && Readable(t, i) && Readable(t, j)
    ensures Scan(t, i) == Scan(t, j)
    decreases i
  {
    hide BlockNumber, IsSymbol, Scan;
    if j < i {
      ReadableRest(t, j, i - 1);
      assert t[i - 1] == t[i - 1..][0];
      ScanStep(t, i);
      ScanReaches(t, i - 1, j);
    }
  }

  lemma ReadableRest(t: seq<byte>, j: nat, i: nat)
    requires j <= i <= |t| && Readable(t, j)
    ensures Readable(t, i)
  {
    hide BlockNumber, IsSymbol;
    assert t[j..][i - j..] == t[i..];
    SuffixIsLess(t[j..], i - j);
  }

  lemma {:induction false} ScanStops(t: seq<byte>, i: nat)
    requires Readable(t, i)
    ensures Scan(t, i).Ok? || (Scan(t, i) == Err(InvalidSymbol) && exists j: nat :: BadSymbolAt(t, j))
            || (Scan(t, i) == Err(Overflow) && exists j: nat :: OverflowAt(t, j))
    decreases i
  {
    if i > 0 {
      ScanStep(t, i);
      hide BlockNumber, IsSymbol, Scan;
      if !IsSymbol(t[i - 1]) {
        assert BadSymbolAt(t, i - 1);
      } else if BlockNumber(t[i - 1..]) > UINT64_MAX {
        assert OverflowAt(t, i - 1);
      } else {
        ScanStops(t, i - 1);
      }
    }
  }

  // Which error a rejected block throws. Digits are read from the right, so the first trouble from there decides; the
  // limit of a short block is checked last.
  lemma BlockErrors(t: seq<byte>)
    ensures DecodedBlock(t) == Err(InvalidBlockLength) <==> |t| == 0 || |t| > 11
    ensures DecodedBlock(t) == Err(InvalidBlockSize) <==> |t| in {1, 4, 8}
    ensures DecodedBlock(t) == Err(InvalidSymbol) <==> DecodedSize(|t|) > 0 && exists j: nat :: BadSymbolAt(t, j)
    ensures DecodedBlock(t) == Err(Overflow) <==> DecodedSize(|t|) > 0 && exists j: nat :: OverflowAt(t, j)
    ensures DecodedBlock(t) == Err(Overflow2)
            <==> 0 < DecodedSize(|t|) < 8 && AllSymbols(t) && Pow(256, DecodedSize(|t|)) <= BlockNumber(t)
  {
    TabledLengths(|t|);
    if DecodedSize(|t|) > 0 {
      ScanErrors(t);
      if DecodedSize(|t|) < 8 {
        ShortIsSmall(t);
      }
    }
    hide DecodedSize, BlockNumber, AllSymbols, ScanDigits, BadSymbolAt, OverflowAt, BytesBe, Pow;
  }

  // The whole scan of a block.
  lemma ScanErrors(t: seq<byte>)
    ensures var r := ScanDigits(t, |t|, 0, 1);
            && (r == Err(InvalidSymbol) <==> exists j: nat :: BadSymbolAt(t, j))
            && (r == Err(Overflow) <==> exists j: nat :: OverflowAt(t, j))
            && (r.Err? ==> r.error == InvalidSymbol || r.error == Overflow)
            && (r.Ok? <==> AllSymbols(t) && BlockNumber(t) <= UINT64_MAX)
            && (r.Ok? ==> r.value == BlockNumber(t))
  {
    hide BlockNumber, AllSymbols, IsSymbol, ScanDigits, Scan, BadSymbolAt, OverflowAt;
    EndReadable(t);
    ScanStops(t, |t|);
    ScanIsNumber(t, |t|);
    if j: nat :| BadSymbolAt(t, j) {
      FirstTrouble(t, j);
    }
    if j: nat :| OverflowAt(t, j) {
      FirstTrouble(t, j);
    }
  }

  lemma FirstTrouble(t: seq<byte>, j: nat)
    requires BadSymbolAt(t, j) || OverflowAt(t, j)
    ensures AllSymbols(t[|t|..])
    ensures BadSymbolAt(t, j) ==> Scan(t, |t|) == Err(InvalidSymbol)
    ensures OverflowAt(t, j) ==> Scan(t, |t|) == Err(Overflow)
  {
    hide BlockNumber, IsSymbol, Scan;
    EndReadable(t);
    ScanReaches(t, |t|, j + 1);
    ScanStep(t, j + 1);
  }

  lemma ShortIsSmall(t: seq<byte>)
    requires 0 < DecodedSize(|t|) < 8
    ensures AllSymbols(t) ==> BlockNumber(t) < UINT64_MAX
  {
    hide DecodedSize, Value, Pow, EncodedSize;
    BlockFits(DecodedSize(|t|));
    if AllSymbols(t) {
      ValueBound(DigitsOf(t), 58);
    }
  }

  lemma EndReadable(t: seq<byte>)
    ensures Readable(t, |t|) && Scan(t, |t|) == ScanDigits(t, |t|, 0, 1)
  {
    assert t[|t|..] == [] && DigitsOf(t[|t|..]) == [];
  }

  // The lengths that decode_block knows.
  lemma TabledLengths(length: nat)
    ensures 0 < length <= 11 && DecodedSize(length) <= 0 <==> length in {1, 4, 8}
    ensures DecodedSize(length) < 0 <==> length in {1, 4, 8} || length > 11
    ensures DecodedSize(length) > 0 ==> 0 < length <= 11
  {
  }

  // ---------- one block there and back ----------

  lemma SymbolIsDigit(d: nat)
    requires d < 58
    ensures IsSymbol(Symbol(d)) && Digit(Symbol(d)) == d
  {
    IndexOfSymbol(d);
  }

  lemma TextDigits(d: seq<nat>)
    requires AllBelow(d, 58)
    ensures AllSymbols(Text(d)) && DigitsOf(Text(d)) == d
  {
    hide IsSymbol, Digit, Symbol;
    forall k | 0 <= k < |d| ensures IsSymbol(Text(d)[k]) && Digit(Text(d)[k]) == d[k] {
      SymbolIsDigit(d[k]);
    }
  }

  lemma DigitsText(t: seq<byte>)
    requires AllSymbols(t)
    ensures Text(DigitsOf(t)) == t
  {
  }

  lemma EncodedNumber(data: seq<byte>)
    requires 1 <= |data| <= 8
    ensures AllSymbols(EncodedBlock(data)) && BlockNumber(EncodedBlock(data)) == Value(data, 256)
    ensures Value(data, 256) < Pow(256, |data|)
  {
    hide Value, Pow, EncodedSize, Digits, AllSymbols, DigitsOf, Text;
    ValueBound(data, 256);
    BlockFits(|data|);
    TextDigits(BlockDigits(data));
    ValueOfDigits(Value(data, 256), 58, EncodedSize(|data|));
  }

  lemma BlockThereAndBack(data: seq<byte>)
    requires 1 <= |data| <= 8
    ensures DecodedBlock(EncodedBlock(data)) == Ok(data)
    ensures BlockWorth(EncodedBlock(data)) < Pow(256, |data|)
  {
    hide Value, Pow, DecodedBlock, EncodedSize, DecodedSize, AllSymbols, BlockNumber, EncodedBlock, Digits;
    EncodedNumber(data);
    BlockFits(8);
    DecodedSizeOf(|data|);
    FullSizes();
    BlockAcceptance(EncodedBlock(data));
    DigitsOfValue(data, 256);
  }

  // The number of a block, or 0 when it is not one.
  ghost function BlockWorth(t: seq<byte>): nat {
    if AllSymbols(t) then BlockNumber(t) else 0
  }

  // An accepted block is the encoding of what it decodes to, unless it is the full block worth 2^64.
  lemma BlockBackAndThere(t: seq<byte>)
    requires DecodedBlock(t).Ok?
    ensures var data := DecodedBlock(t).value;
            EncodedBlock(data) == t <==> BlockWorth(t) != UINT64_MAX || |t| < 11
  {
    BlockAcceptance(t);
    var n, v := DecodedSize(|t|), BlockNumber(t);
    var data := BytesBe(v, n);
    BlockFits(n);
    assert n == 8 <==> |t| == 11;
    DigitsText(t);
    if v < Pow(256, n) {
      ValueOfDigits(v, 256, n);
      DigitsOfValue(DigitsOf(t), 58);
    } else {
      BlockThereAndBack(data);
    }
  }

  // The eleven symbols of 2^64: accepted, yet they read as eight zero bytes, like eleven times '1'.
  lemma MaximalBlockReadsAsZero()
    ensures AllBelow(Digits(UINT64_MAX, 58, 11), 58)
    ensures var t := Text(Digits(UINT64_MAX, 58, 11));
            BlockWorth(t) == UINT64_MAX && DecodedBlock(t) == Ok(seq(8, _ => 0))
  {
    DigitsBelow(UINT64_MAX, 58, 11);
    assert UINT64_MAX < Pow(58, 11);
    hide Pow, Digits, DecodedBlock, BlockNumber, AllSymbols, DecodedSize;
    var d := Digits(UINT64_MAX, 58, 11);
    TextDigits(d);
    ValueOfDigits(UINT64_MAX, 58, 11);
    BlockAcceptance(Text(d));
    FullSizes();
    DecodedSizeOf(8);
    BytesOfMaximum();
  }

  lemma BytesOfMaximum()
    ensures BytesBe(UINT64_MAX, 8) == seq(8, _ => 0)
  {
  }

  // ---------- whole texts ----------

  function DecodedBlocks(enc: seq<byte>): (r: Result<seq<byte>>)
    ensures r != Err(InvalidEncodedLength)
  {
    if enc == [] then Ok([])
    else if |enc| < 11 then DecodedBlock(enc)
    else
      match DecodedBlock(enc[..11])
      case Err(e) => Err(e)
      case Ok(first) => After(first, DecodedBlocks(enc[11..]))
  }

  // The bytes of a prefix, put in front of what decoding the rest gave.
  function After(first: seq<byte>, rest: Result<seq<byte>>): Result<seq<byte>> {
    match rest
    case Err(e) => Err(e)
    case Ok(bytes) => Ok(first + bytes)
  }

  function DecodedBytes(enc: seq<byte>): Result<seq<byte>> {
    if DecodedSize(|enc| % 11) < 0 then Err(InvalidEncodedLength) else DecodedBlocks(enc)
  }

  // Exactly the texts that leave a last block of no known length are refused as a whole.
  lemma EncodedLengthError(enc: seq<byte>)
    ensures DecodedBytes(enc) == Err(InvalidEncodedLength) <==> |enc| % 11 in {1, 4, 8}
  {
    TabledLengths(|enc| % 11);
    hide DecodedBlocks;
  }

  // strtobin: a Uint8Array keeps the low byte of each character code.
  function CodesOf(s: string): (enc: seq<byte>)
    ensures |enc| == |s|
  {
    seq(|s|, i requires 0 <= i < |s| => s[i] as int % 256)
  }

  // The hexadecimal string of a text.
  function Decode(s: string): Result<string> {
    match DecodedBytes(CodesOf(s))
    case Err(e) => Err(e)
    case Ok(data) => Ok(HexOf(data))
  }

  lemma {:induction false} BytesThereAndBack(data: seq<byte>)
    ensures DecodedBlocks(EncodedBytes(data)) == Ok(data)
    ensures DecodedSize(|EncodedBytes(data)| % 11) >= 0
    decreases |data|
  {
    hide EncodedBlock, DecodedBlock, EncodedSize, DecodedSize;
    FullSizes();
    if |data| < 8 {
      DecodedSizeOf(|data|);
      if data != [] {
        BlockThereAndBack(data);
      }
    } else {
      BlockThereAndBack(data[..8]);
      BytesThereAndBack(data[8..]);
      FirstBlockThereAndBack(data[..8], data[8..]);
      assert data == data[..8] + data[8..];
    }
  }

  lemma FirstBlockThereAndBack(first: seq<byte>, rest: seq<byte>)
    requires |first| == 8 && DecodedBlock(EncodedBlock(first)) == Ok(first)
    ensures DecodedBlocks(EncodedBytes(first + rest)) == After(first, DecodedBlocks(EncodedBytes(rest)))
    ensures |EncodedBytes(first + rest)| % 11 == |EncodedBytes(rest)| % 11
  {
    FullSizes();
    hide EncodedBlock, DecodedBlock, EncodedSize, DecodedSize;
    assert (first + rest)[..8] == first && (first + rest)[8..] == rest;
    var enc := EncodedBytes(first + rest);
    assert enc == EncodedBlock(first) + EncodedBytes(rest);
    assert enc[..11] == EncodedBlock(first) && enc[11..] == EncodedBytes(rest);
    ElevenMore(|EncodedBytes(rest)|);
  }

  lemma ElevenMore(n: nat)
    ensures (11 + n) % 11 == n % 11
  {
  }

  lemma CodesOfStringOf(bin: seq<byte>)
    ensures CodesOf(StringOf(bin)) == bin
  {
  }

  // Of the strings of even length exactly the lower-case hexadecimal ones survive encode and decode unchanged.
  lemma RoundTrip(hex: string)
    requires |hex| % 2 == 0
    ensures Decode(Encode(hex).value) == Ok(hex) <==> LowerHex(hex)
    ensures Decode(Encode(hex).value) == Ok(HexOf(BytesOf(hex)))
  {
    hide EncodedBytes, DecodedBlocks, CodesOf, StringOf;
    BytesThereAndBack(BytesOf(hex));
    CodesOfStringOf(EncodedBytes(BytesOf(hex)));
    HexOfBytesOf(hex);
  }

  // Some full block of the text is worth exactly 2^64.
  ghost predicate HasMaximalBlock(enc: seq<byte>) {
    |enc| >= 11 && (BlockWorth(enc[..11]) == UINT64_MAX || HasMaximalBlock(enc[11..]))
  }

  lemma {:induction false} BytesBackAndThere(enc: seq<byte>)
    requires DecodedBlocks(enc).Ok?
    ensures EncodedBytes(DecodedBlocks(enc).value) == enc <==> !HasMaximalBlock(enc)
  {
    hide EncodedBlock, DecodedBlock, EncodedSize, DecodedSize, BlockWorth;
    FullSizes();
    if enc == [] {
    } else if |enc| < 11 {
      BlockBackAndThere(enc);
      EncodedOnce(DecodedBlock(enc).value);
    } else {
      var data := DecodedBlocks(enc).value;
      BlockBackAndThere(enc[..11]);
      DecodedSizeOf(8);
      assert data[..8] == DecodedBlock(enc[..11]).value && data[8..] == DecodedBlocks(enc[11..]).value;
      BytesBackAndThere(enc[11..]);
      BothParts(EncodedBlock(data[..8]), EncodedBytes(data[8..]), enc, 11);
    }
  }

  lemma BothParts<T>(a: seq<T>, b: seq<T>, t: seq<T>, n: nat)
    requires |a| == n <= |t|
    ensures a + b == t <==> a == t[..n] && b == t[n..]
  {
  }

  lemma StringOfIs(bin: seq<byte>, s: string)
    ensures StringOf(bin) == s <==> bin == CodesOf(s) && forall k | 0 <= k < |s| :: s[k] as int < 256
  {
  }

  // An accepted text is what encode prints for it, except when a full block is worth exactly 2^64, which reads as
  // eight zero bytes, or when a character does not fit a byte.
  lemma Canonicity(s: string)
    requires Decode(s).Ok?
    ensures Encode(Decode(s).value) == Ok(s)
            <==> !HasMaximalBlock(CodesOf(s)) && forall k | 0 <= k < |s| :: s[k] as int < 256
  {
    hide EncodedBytes, DecodedBlocks, CodesOf, StringOf, HasMaximalBlock, DecodedSize;
    var data := DecodedBytes(CodesOf(s)).value;
    BytesBackAndThere(CodesOf(s));
    BytesOfHexOf(data);
    StringOfIs(EncodedBytes(data), s);
  }

  // ---------- the loops ----------

  // decode_block
  method DecodeBlock(data: seq<byte>, buf: array<byte>, index: nat) returns (r: Result<()>)
    requires DecodedSize(|data|) > 0 ==> index + DecodedSize(|data|) <= buf.Length
    modifies buf
    ensures match DecodedBlock(data)
            case Err(e) => r == Err(e) && buf[..] == old(buf[..])
            case Ok(bytes) => r == Ok(()) && buf[..] == old(buf[..index]) + bytes + old(buf[index + |bytes|..])
  {
    var read := ReadBlock(data);
    if read.Err? {
      return Err(read.error);
    }
    hide DecodedBlock, DecodedSize;
    Store(read.value, buf, index);
    r := Ok(());
  }

  // buf.set(bytes, index)
  method Store(bytes: seq<byte>, buf: array<byte>, index: nat)
    requires index + |bytes| <= buf.Length
    modifies buf
    ensures buf[..] == old(buf[..index]) + bytes + old(buf[index + |bytes|..])
  {
    forall k | 0 <= k < |bytes| {
      buf[index + k] := bytes[k];
    }
  }

  // decode_block up to the point where it stores its bytes.
  method ReadBlock(data: seq<byte>) returns (r: Result<seq<byte>>)
    ensures r == DecodedBlock(data)
  {
    if |data| < 1 || |data| > 11 {
      return Err(InvalidBlockLength);
    }
    var resSize := DecodedSize(|data|);
    if resSize <= 0 {
      return Err(InvalidBlockSize);
    }
    var num := ReadDigits(data);
    if num.Err? {
      return Err(num.error);
    }
    if resSize < 8 && Pow(256, resSize) <= num.value {
      return Err(Overflow2);
    }
    r := Uint64To8Be(num.value, resSize);
  }

  // The loop of decode_block over the symbols of data.
  method ReadDigits(data: seq<byte>) returns (r: Result<nat>)
    ensures r == ScanDigits(data, |data|, 0, 1)
  {
    var resNum: nat, order: nat := 0, 1;
    for i := |data| downto 0
      invariant ScanDigits(data, |data|, 0, 1) == ScanDigits(data, i, resNum, order)
    {
      var digit := IndexOf(Alphabet(), data[i]);
      if digit < 0 {
        return Err(InvalidSymbol);
      }
      var product := order * digit + resNum;
      if product > UINT64_MAX {
        return Err(Overflow);
      }
      resNum := product;
      order := order * 58;
    }
    r := Ok(resNum);
  }

  lemma {:induction false} AfterTwice(a: seq<byte>, b: seq<byte>, rest: Result<seq<byte>>)
    ensures After(a, After(b, rest)) == After(a + b, rest)
  {
    if rest.Ok? {
      assert a + (b + rest.value) == a + b + rest.value;
    }
  }

  // b58.decode
  method DecodeText(enc: string) returns (r: Result<string>)
    ensures r == Decode(enc)
  {
    var data := DecodeBytes(CodesOf(enc));
    if data.Err? {
      return Err(data.error);
    }
    var hex := BinToHex(data.value);
    r := Ok(hex);
  }

  // b58.decode, from the byte array on.
  method DecodeBytes(enc: seq<byte>) returns (r: Result<seq<byte>>)
    ensures r == DecodedBytes(enc)
  {
    var fullBlockCount, lastBlockSize := |enc| / 11, |enc| % 11;
    var lastBlockDecodedSize := DecodedSize(lastBlockSize);
    if lastBlockDecodedSize < 0 {
      return Err(InvalidEncodedLength);
    }
    DecodedSizeOf(0);
    FullSizes();
    hide DecodedBlock, DecodedSize, DecodedBlocks, EncodedSize;
    var data := new byte[fullBlockCount * 8 + lastBlockDecodedSize](_ => 0);
    var full := DecodeFullBlocks(enc, fullBlockCount, data);
    if full.Err? {
      return Err(full.error);
    }
    DecodedFrom(enc, fullBlockCount);
    ghost var split := 8 * fullBlockCount;
    if lastBlockSize > 0 {
      ghost var was := data[..split];
      var done := DecodeBlock(enc[11 * fullBlockCount..], data, 8 * fullBlockCount);
      if done.Err? {
        return Err(done.error);
      }
      assert data[..] == was + DecodedBlock(enc[11 * fullBlockCount..]).value;
    } else {
      assert data[..] == data[..split] + [];
    }
    r := Ok(data[..]);
  }

  // The loop of b58.decode over the full blocks.
  method DecodeFullBlocks(enc: seq<byte>, fullBlockCount: nat, data: array<byte>) returns (r: Result<()>)
    requires fullBlockCount == |enc| / 11 && 8 * fullBlockCount <= data.Length
    modifies data
    ensures r.Err? ==> DecodedBlocks(enc) == Err(r.error)
    ensures r.Ok? ==>
              DecodedBlocks(enc) == After(data[..8 * fullBlockCount], DecodedBlocks(enc[11 * fullBlockCount..]))
  {
    FullSizes();
    DecodedSizeOf(8);
    hide DecodedBlock, DecodedSize, DecodedBlocks, EncodedSize;
    DecodedFrom(enc, 0);
    assert data[..0] == [] && enc[0..] == enc;
    for i := 0 to fullBlockCount
      invariant DecodedBlocks(enc) == After(data[..8 * i], DecodedBlocks(enc[11 * i..]))
    {
      DecodedFrom(enc, i);
      ghost var was := data[..8 * i];
      var done := DecodeBlock(enc[11 * i..11 * i + 11], data, 8 * i);
      if done.Err? {
        return Err(done.error);
      }
      ghost var bytes := DecodedBlock(enc[11 * i..11 * i + 11]).value;
      AfterTwice(was, bytes, DecodedBlocks(enc[11 * i + 11..]));
      assert data[..8 * (i + 1)] == was + bytes;
    }
    r := Ok(());
  }

  // What decoding from full block i on amounts to.
  lemma DecodedFrom(enc: seq<byte>, i: nat)
    requires 11 * i <= |enc|
    ensures DecodedBlocks(enc) == After([], DecodedBlocks(enc))
    ensures DecodedBlocks(enc[11 * i..]) ==
            if 11 * i == |enc| then Ok([])
            else if |enc| - 11 * i < 11 then DecodedBlock(enc[11 * i..])
            else match DecodedBlock(enc[11 * i..11 * i + 11])
                 case Err(e) => Err(e)
                 case Ok(first) => After(first, DecodedBlocks(enc[11 * i + 11..]))
  {
    hide DecodedBlock;
    var rest := enc[11 * i..];
    if |rest| >= 11 {
      assert rest[..11] == enc[11 * i..11 * i + 11] && rest[11..] == enc[11 * i + 11..];
    }
    if DecodedBlocks(enc).Ok? {
      assert [] + DecodedBlocks(enc).value == DecodedBlocks(enc).value;
    }
  }
}
