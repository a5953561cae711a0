/** The CryptoNote block Base58 codec of html/js/base58.js: eight bytes to eleven characters, a short last block to fewer. */
module Base58 {
  import opened Radix
  import opened JsText

  // The digits, then the upper-case and lower-case letters, without 0, I, O and l.
  const ALPHABET := "123456789" + "ABCDEFGHJKLMNPQRSTUVWXYZ" + "abcdefghijkmnopqrstuvwxyz"

  // Characters of an encoded block, by the number of bytes in the block.
  const SIZES: seq<nat> := [0, 2, 3, 5, 6, 7, 9, 10, 11]

  // The limit the source calls UINT64_MAX, which is one more than the largest 64-bit number.
  const UINT64_MAX: nat := 0x1_0000_0000_0000_0000

  // ---------- the alphabet ----------

  // array.indexOf(x)
  function IndexOf(s: seq<nat>, x: nat): (i: int)
    ensures -1 <= i < |s|
    ensures i >= 0 ==> s[i] == x
    ensures i < 0 ==> x !in s
  {
    if s == [] then -1
    else if s[0] == x then 0
    else
      var j := IndexOf(s[1..], x);
      assert s == [s[0]] + s[1..];
      if j < 0 then -1 else j + 1
  }

  lemma UpperCodes(i: nat)
    requires i < 24
    ensures "ABCDEFGHJKLMNPQRSTUVWXYZ"[i] as int == if i < 8 then i + 65 else if i < 13 then i + 66 else i + 67
  {
  }

  lemma LowerCodes(i: nat)
    requires i < 25
    ensures "abcdefghijkmnopqrstuvwxyz"[i] as int == if i < 11 then i + 97 else i + 98
  {
  }

  // The character code of a Base58 digit.
  function Symbol(d: nat): (c: byte)
    requires d < 58
    ensures 49 <= c < 123
  {
    if 9 <= d < 33 then UpperCodes(d - 9); ALPHABET[d] as int
    else if d >= 33 then LowerCodes(d - 33); ALPHABET[d] as int
    else ALPHABET[d] as int
  }

  lemma SymbolCode(d: nat)
    requires d < 58
    ensures Symbol(d) == if d < 9 then d + 49 else if d < 17 then d + 56 else if d < 22 then d + 57
                         else if d < 33 then d + 58 else if d < 44 then d + 64 else d + 65
  {
    if 9 <= d < 33 {
      UpperCodes(d - 9);
    } else if d >= 33 {
      LowerCodes(d - 33);
    }
  }

  lemma SymbolsAscend(d: nat, e: nat)
    requires d < e < 58
    ensures Symbol(d) < Symbol(e)
  {
    hide Symbol;
    SymbolCode(d);
    SymbolCode(e);
  }

  // The array of character codes that the source searches.
  function Alphabet(): (a: seq<byte>)
    ensures |a| == 58
    ensures forall d | 0 <= d < 58 :: a[d] == Symbol(d)
  {
    seq(58, d requires 0 <= d < 58 => Symbol(d))
  }

  lemma IndexOfSymbol(d: nat)
    requires d < 58
    ensures IndexOf(Alphabet(), Symbol(d)) == d
  {
    var i := IndexOf(Alphabet(), Symbol(d));
    assert Alphabet()[d] == Symbol(d);
    if i < d {
      SymbolsAscend(i, d);
    } else if d < i {
      SymbolsAscend(d, i);
    }
  }

  // ---------- 64-bit numbers ----------

  // The number read from the first i bytes.
  ghost function Read(data: seq<byte>, i: nat): nat
    requires i <= |data|
  {
    Value(data[..i], 256)
  }

  lemma ReadEnds(data: seq<byte>)
    ensures Read(data, 0) == 0 && Read(data, |data|) == Value(data, 256)
  {
    assert data[..|data|] == data;
  }

  lemma ReadNext(data: seq<byte>, i: nat)
    requires i < |data|
    ensures Read(data, i + 1) == Read(data, i) * 256 + data[i]
  {
    assert data[..i + 1][..i] == data[..i];
  }

  // uint8_be_to_64: the switch is entered at the case label that the length selects and falls through to case 8;
  // the loop runs through those labels.
  method Uint8BeTo64(data: seq<byte>) returns (r: Result<nat>)
    ensures r == if 1 <= |data| <= 8 then Ok(Value(data, 256)) else Err(InvalidInputLength)
  {
    if |data| < 1 || |data| > 8 {
      return Err(InvalidInputLength);
    }
    var res: nat, i: nat := 0, 0;
    ReadEnds(data);
    for selected := 9 - |data| to 9
      invariant i == selected - (9 - |data|) && res == Read(data, i)
    {
      hide Read, Value;
      ReadNext(data, i);
      res := if selected == 1 then res + data[i] else res * 256 + data[i];
      i := i + 1;
    }
    r := Ok(res);
  }

  // uint64_to_8be
  method Uint64To8Be(num: nat, size: nat) returns (r: Result<seq<byte>>)
    ensures r == if 1 <= size <= 8 then Ok(BytesBe(num, size)) else Err(InvalidInputLength)
  {
    var res := new byte[size](_ => 0);
    if size < 1 || size > 8 {
      return Err(InvalidInputLength);
    }
    var rest := num;
    ghost var digits := BytesBe(num, size);
    for i := size downto 0
      invariant digits[..i] == Digits(rest, 256, i)
      invariant res[i..] == digits[i..]
    {
      assert digits[..i + 1][i] == rest % 256;
      assert digits[..i] == digits[..i + 1][..i];
      res[i] := rest % 256;
      rest := Quotient(rest, 256);
    }
    r := Ok(res[..]);
  }

  // num as size bytes, big end first.
  function BytesBe(num: nat, size: nat): (b: seq<byte>)
    ensures |b| == size && b == Digits(num, 256, size)
  {
    DigitsBelow(num, 256, size);
    Digits(num, 256, size)
  }

  // ---------- what the blocks mean ----------

  // encoded_block_sizes[n]
  function EncodedSize(n: nat): (size: nat)
    requires n <= 8
    ensures n > 0 ==> 2 <= size <= 11
  {
    SIZES[n]
  }

  function Text(digits: seq<nat>): (t: seq<byte>)
    requires AllBelow(digits, 58)
    ensures |t| == |digits|
    ensures forall k | 0 <= k < |t| :: t[k] == Symbol(digits[k])
  {
    seq(|digits|, i requires 0 <= i < |digits| => Symbol(digits[i]))
  }

  // The Base58 digits of a block's number, as many as its size is given.
  function BlockDigits(data: seq<byte>): (d: seq<nat>)
    requires 1 <= |data| <= 8
    ensures |d| == EncodedSize(|data|) && AllBelow(d, 58)
  {
    DigitsBelow(Value(data, 256), 58, EncodedSize(|data|));
    Digits(Value(data, 256), 58, EncodedSize(|data|))
  }

  function EncodedBlock(data: seq<byte>): (t: seq<byte>)
    requires 1 <= |data| <= 8
    ensures |t| == EncodedSize(|data|)
  {
    Text(BlockDigits(data))
  }

  // The block sizes leave room: 256^n <= 58^size.
  lemma BlockFits(n: nat)
    requires 1 <= n <= 8
    ensures Pow(256, n) <= Pow(58, EncodedSize(n))
    ensures n < 8 ==> Pow(58, EncodedSize(n)) <= UINT64_MAX
    ensures n == 8 ==> Pow(256, n) == UINT64_MAX
  {
  }

  // And no size leaves room to spare: one digit less would not do.
  lemma BlockTight(n: nat)
    requires 1 <= n <= 8
    ensures Pow(58, EncodedSize(n) - 1) < Pow(256, n)
  {
    assert Pow(58, 1) < Pow(256, 1) && Pow(58, 2) < Pow(256, 2) && Pow(58, 4) < Pow(256, 3) && Pow(58, 5) < Pow(256, 4);
    assert Pow(58, 6) < Pow(256, 5) && Pow(58, 8) < Pow(256, 6) && Pow(58, 9) < Pow(256, 7) && Pow(58, 10) < Pow(256, 8);
  }

  // The size of a block is the least number of digits that holds all its values.
  lemma SizeIsLeast(n: nat, size: nat)
    requires 1 <= n <= 8
    ensures Pow(256, n) <= Pow(58, size) <==> EncodedSize(n) <= size
  {
    hide Pow, EncodedSize;
    BlockFits(n);
    BlockTight(n);
    if EncodedSize(n) <= size {
      PowMonotone(58, EncodedSize(n), size);
    } else {
      PowMonotone(58, size, EncodedSize(n) - 1);
    }
  }

  // encode_block
  method EncodeBlock(data: seq<byte>, buf: array<byte>, index: nat) returns (r: Result<()>)
    requires 1 <= |data| <= 8 ==> index + EncodedSize(|data|) <= buf.Length
    requires 1 <= |data| <= 8 ==> forall k | index <= k < index + EncodedSize(|data|) :: buf[k] == Symbol(0)
    modifies buf
    ensures r == if 1 <= |data| <= 8 then Ok(())
                 else if 9 <= |data| <= 11 then Err(InvalidInputLength) else Err(InvalidBlockLength)
    ensures buf[..] == if r.Ok? then old(buf[..index]) + EncodedBlock(data) + old(buf[index + EncodedSize(|data|)..])
                       else old(buf[..])
  {
    if |data| < 1 || |data| > 11 {
      return Err(InvalidBlockLength);
    }
    var num := Uint8BeTo64(data);
    if num.Err? {
      return Err(num.error);
    }
    WriteDigits(data, num.value, EncodedSize(|data|) - 1, buf, index);
    r := Ok(());
  }

  // The loop of encode_block, over the number num of data, from cell last of the block: the digits are written from the
  // low end, and the cells above the last digit keep their '1'.
  method WriteDigits(ghost data: seq<byte>, num: nat, last: nat, buf: array<byte>, index: nat)
    requires 1 <= |data| <= 8 && num == Value(data, 256) && last == EncodedSize(|data|) - 1
    requires index + EncodedSize(|data|) <= buf.Length
    requires forall k | index <= k < index + EncodedSize(|data|) :: buf[k] == Symbol(0)
    modifies buf
    ensures buf[..] == old(buf[..index]) + EncodedBlock(data) + old(buf[index + EncodedSize(|data|)..])
  {
    var rest: nat, i: int := num, last;
    ghost var was, digits, block := buf[..], BlockDigits(data), EncodedBlock(data);
    ValueBound(data, 256);
    BlockFits(|data|);
    hide Quotient, Symbol, Value, Pow, EncodedSize, Digits, BlockDigits, Written;
    while rest > 0
      invariant -1 <= i < |digits|
      invariant rest < Pow(58, i + 1)
      invariant digits[..i + 1] == Digits(rest, 58, i + 1)
      invariant buf[..] == Written(was, block, index, i)
      decreases rest
    {
      LastDigit(digits, rest, i);
      var remainder := rest % 58;
      rest := Quotient(rest, 58);
      CellWritten(was, block, index, i);
      buf[index + i] := Symbol(remainder);
      i := i - 1;
    }
    LeadingZeros(digits, i);
    CellsKept(was, block, index, i);
  }

  // The buffer with the block's cells above i written.
  ghost function Written(was: seq<byte>, block: seq<byte>, index: nat, i: int): (now: seq<byte>)
    requires -1 <= i < |block| && index + |block| <= |was|
    ensures |now| == |was|
  {
    was[..index + i + 1] + block[i + 1..] + was[index + |block|..]
  }

  lemma CellWritten(was: seq<byte>, block: seq<byte>, index: nat, i: nat)
    requires i < |block| && index + |block| <= |was|
    ensures Written(was, block, index, i)[index + i := block[i]] == Written(was, block, index, i - 1)
  {
  }

  lemma CellsKept(was: seq<byte>, block: seq<byte>, index: nat, i: int)
    requires -1 <= i < |block| && index + |block| <= |was|
    requires forall k | 0 <= k <= i :: was[index + k] == block[k]
    ensures Written(was, block, index, i) == was[..index] + block + was[index + |block|..]
  {
  }

  // What one turn of encode_block's loop relies on: there is a cell left, and it is due the low digit of num.
  lemma LastDigit(digits: seq<nat>, num: nat, i: int)
    requires -1 <= i < |digits| && 0 < num < Pow(58, i + 1)
    requires digits[..i + 1] == Digits(num, 58, i + 1)
    ensures i >= 0 && Quotient(num, 58) < Pow(58, i)
    ensures digits[i] == num % 58
    ensures digits[..i] == Digits(Quotient(num, 58), 58, i)
  {
  }

  lemma LeadingZeros(digits: seq<nat>, i: int)
    requires -1 <= i < |digits|
    requires digits[..i + 1] == Digits(0, 58, i + 1)
    ensures forall k | 0 <= k <= i :: digits[k] == 0
  {
    ZeroDigits(58, i + 1);
    assert forall k | 0 <= k <= i :: digits[k] == digits[..i + 1][k];
  }

  // ---------- encode ----------

  // The blocks of data, encoded one after the other.
  function EncodedBytes(data: seq<byte>): seq<byte> {
    if data == [] then []
    else if |data| < 8 then EncodedBlock(data)
    else EncodedBlock(data[..8]) + EncodedBytes(data[8..])
  }

  lemma EncodedOnce(data: seq<byte>)
    requires |data| <= 8
    ensures EncodedBytes(data) == if data == [] then [] else EncodedBlock(data)
  {
    hide EncodedBlock, EncodedSize;
    if |data| == 8 {
      assert data[..8] == data && data[8..] == [];
      assert EncodedBytes(data) == EncodedBlock(data) + EncodedBytes([]);
    }
  }

  // bintostr
  function StringOf(bin: seq<byte>): (s: string)
    ensures |s| == |bin|
    ensures forall k | 0 <= k < |s| :: s[k] == bin[k] as char
  {
    seq(|bin|, i requires 0 <= i < |bin| => bin[i] as char)
  }

  // The text of a hexadecimal string.
  function Encode(hex: string): Result<string> {
    if |hex| % 2 != 0 then Err(InvalidHexLength) else Ok(StringOf(EncodedBytes(BytesOf(hex))))
  }

  lemma {:induction false} EncodedBytesConcat(a: seq<byte>, b: seq<byte>, n: nat)
    requires |a| == 8 * n
    ensures EncodedBytes(a + b) == EncodedBytes(a) + EncodedBytes(b)
    decreases n
  {
    hide EncodedBlock, EncodedSize;
    if n == 0 {
      assert a + b == b;
    } else {
      assert (a + b)[..8] == a[..8] && (a + b)[8..] == a[8..] + b;
      EncodedBytesConcat(a[8..], b, n - 1);
    }
  }

  lemma {:induction false} EncodedLength(data: seq<byte>, n: nat)
    requires |data| == 8 * n
    ensures |EncodedBytes(data)| == 11 * n
    decreases n
  {
    hide EncodedBlock;
    if n > 0 {
      EncodedLength(data[8..], n - 1);
    }
  }

  // The length of the text of n full blocks and r more bytes.
  lemma {:induction false} TextLength(data: seq<byte>, n: nat, r: nat)
    requires |data| == 8 * n + r && r < 8
    ensures |EncodedBytes(data)| == 11 * n + EncodedSize(r)
    decreases n
  {
    FillOf(8);
    FillOf(0);
    hide EncodedBlock, EncodedSize;
    if n > 0 {
      TextLength(data[8..], n - 1, r);
    }
  }

  lemma FillOf(n: nat)
    requires n <= 8
    ensures n == 0 ==> EncodedSize(n) == 0
    ensures n == 5 ==> EncodedSize(n) == 7
    ensures n == 8 ==> EncodedSize(n) == 11
  {
  }

  // Payloads of 69 and 77 bytes, the standard and the integrated addresses, take 95 and 106 characters.
  lemma AddressLengths(data: seq<byte>)
    ensures |data| == 69 ==> |EncodedBytes(data)| == 95
    ensures |data| == 77 ==> |EncodedBytes(data)| == 106
  {
    hide EncodedBytes, EncodedSize;
    FillOf(5);
    if |data| == 69 {
      TextLength(data, 8, 5);
    } else if |data| == 77 {
      TextLength(data, 9, 5);
    }
  }

  // One more full block.
  lemma EncodedPrefix(data: seq<byte>, i: nat)
    requires 8 * i + 8 <= |data|
    ensures EncodedBytes(data[..8 * i + 8]) == EncodedBytes(data[..8 * i]) + EncodedBlock(data[8 * i..8 * i + 8])
  {
    hide EncodedBlock, EncodedBytes, EncodedSize;
    assert data[..8 * i + 8] == data[..8 * i] + data[8 * i..8 * i + 8];
    EncodedBytesConcat(data[..8 * i], data[8 * i..8 * i + 8], i);
    EncodedOnce(data[8 * i..8 * i + 8]);
  }

  // A result array that starts as all '1'.
  function Ones(n: nat): (s: seq<byte>)
    ensures |s| == n
  {
    seq(n, _ => Symbol(0))
  }

  lemma NextBlockPlaced(done: seq<byte>, block: seq<byte>, left: nat)
    requires |block| <= left
    ensures var was := done + Ones(left);
            was[..|done|] + block + was[|done| + |block|..] == done + block + Ones(left - |block|)
  {
  }

  // b58.encode
  method EncodeHex(hex: string) returns (r: Result<string>)
    ensures r == Encode(hex)
  {
    var bin := HexToBin(hex);
    if bin.Err? {
      return Err(bin.error);
    }
    var data := bin.value;
    if |data| == 0 {
      return Ok("");
    }
    var res := EncodeBytes(data);
    r := Ok(StringOf(res));
  }

  // b58.encode, from the byte array on.
  method EncodeBytes(data: seq<byte>) returns (out: seq<byte>)
    ensures out == EncodedBytes(data)
  {
    var fullBlockCount, lastBlockSize := |data| / 8, |data| % 8;
    var resSize := fullBlockCount * 11 + EncodedSize(lastBlockSize);
    var res := new byte[resSize](_ => Symbol(0));
    assert EncodedSize(0) == 0;
    assert res[..] == Ones(resSize);
    hide EncodedBlock, EncodedBytes, EncodedSize, Symbol, Ones;
    EncodeFullBlocks(data, fullBlockCount, res);
    LastBlock(data, fullBlockCount);
    if lastBlockSize > 0 {
      var last, left := data[8 * fullBlockCount..], resSize - 11 * fullBlockCount;
      ReadyForBlock(data, fullBlockCount, last, left);
      var _ := EncodeBlock(last, res, 11 * fullBlockCount);
    }
    out := res[..];
  }

  // The loop of b58.encode over the full blocks.
  method EncodeFullBlocks(data: seq<byte>, fullBlockCount: nat, res: array<byte>)
    requires fullBlockCount == |data| / 8 && 11 * fullBlockCount <= res.Length && res[..] == Ones(res.Length)
    modifies res
    ensures res[..] == EncodedBytes(data[..8 * fullBlockCount]) + Ones(res.Length - 11 * fullBlockCount)
  {
    hide EncodedBlock, EncodedBytes, EncodedSize, Symbol, Ones;
    NothingEncoded(data);
    for i := 0 to fullBlockCount
      invariant res[..] == EncodedBytes(data[..8 * i]) + Ones(res.Length - 11 * i)
    {
      EncodeFullBlock(data, i, res);
    }
  }

  // One turn of that loop.
  method EncodeFullBlock(data: seq<byte>, i: nat, res: array<byte>)
    requires 8 * i + 8 <= |data| && 11 * i + 11 <= res.Length
    requires res[..] == EncodedBytes(data[..8 * i]) + Ones(res.Length - 11 * i)
    modifies res
    ensures res[..] == EncodedBytes(data[..8 * i + 8]) + Ones(res.Length - 11 * i - 11)
  {
    hide EncodedBlock, EncodedBytes, EncodedSize, Symbol, Ones;
    var block, index := data[8 * i..8 * i + 8], 11 * i;
    FillOf(8);
    EncodedPrefix(data, i);
    ReadyForBlock(data, i, block, res.Length - index);
    var _ := EncodeBlock(block, res, index);
  }

  lemma NothingEncoded(data: seq<byte>)
    ensures EncodedBytes(data[..0]) == []
  {
  }

  lemma LastBlock(data: seq<byte>, n: nat)
    requires n == |data| / 8
    ensures EncodedBytes(data) == EncodedBytes(data[..8 * n]) + if |data| % 8 == 0 then [] else EncodedBlock(data[8 * n..])
    ensures |EncodedBytes(data[..8 * n])| == 11 * n
  {
    hide EncodedBlock, EncodedBytes, EncodedSize;
    assert data == data[..8 * n] + data[8 * n..];
    EncodedBytesConcat(data[..8 * n], data[8 * n..], n);
    EncodedLength(data[..8 * n], n);
    EncodedOnce(data[8 * n..]);
  }

  // The buffer after i full blocks has room for the next block, and all '1' from there on.
  lemma ReadyForBlock(data: seq<byte>, i: nat, next: seq<byte>, left: nat)
    requires 8 * i <= |data| && 1 <= |next| <= 8 && EncodedSize(|next|) <= left
    ensures var buf := EncodedBytes(data[..8 * i]) + Ones(left);
            && |EncodedBytes(data[..8 * i])| == 11 * i
            && (forall k | 11 * i <= k < |buf| :: buf[k] == Symbol(0))
            && buf[..11 * i] + EncodedBlock(next) + buf[11 * i + EncodedSize(|next|)..]
               == EncodedBytes(data[..8 * i]) + EncodedBlock(next) + Ones(left - EncodedSize(|next|))
  {
    hide EncodedBlock, EncodedBytes, EncodedSize, Symbol;
    EncodedLength(data[..8 * i], i);
    NextBlockPlaced(EncodedBytes(data[..8 * i]), EncodedBlock(next), left);
  }
}
