/** encode_varint and derivation_to_scalar's buffer (html/js/cn_util.js): unsigned LEB128, section 7.6 of DWARF 5. */
module Varint {
  import opened Radix
  import opened JsText
  import opened Options

  // JSBigInt.lowVal: the lowest digit of the library's base 10^7.
  function LowVal(i: nat): nat {
    i % 1_000_0000
  }

  // (i.lowVal() & 0x7f) | 0x80
  function Continued(i: nat): byte {
    LowVal(i) % 128 + 128
  }

  // The bytes of the encoding: seven bits each, least significant first, all but the last with the top bit set.
  function VarintBytes(i: nat): (b: seq<byte>)
    ensures |b| > 0
  {
    if i < 128 then [i] else [i % 128 + 128] + VarintBytes(i / 128)
  }

  // 128 divides the library's base, so its lowest digit still knows the low seven bits.
  lemma LowBits(i: nat)
    ensures Continued(i) == i % 128 + 128
  {
  }

  // encode_varint
  method EncodeVarint(n: nat) returns (out: string)
    ensures out == HexOf(VarintBytes(n))
  {
    var i := n;
    out := "";
    while i >= 0x80
      invariant HexOf(VarintBytes(n)) == out + HexOf(VarintBytes(i))
    {
      LowBits(i);
      HexOfConcat([Continued(i)], VarintBytes(i / 128));
      OneByte(Continued(i));
      out := out + HexOfByte(Continued(i));
      i := i / 128;
    }
    OneByte(i);
    out := out + HexOfByte(i);
  }

  lemma OneByte(b: byte)
    ensures HexOf([b]) == HexOfByte(b)
  {
  }

  // i without its low 7 k bits.
  function Shifted(i: nat, k: nat): nat
    decreases k
  {
    if k == 0 then i else Shifted(i / 128, k - 1)
  }

  // Byte k of the encoding holds the k-th seven bits, and the top bit exactly when more bytes follow.
  lemma {:induction false} ByteHolds(i: nat, k: nat)
    requires k < |VarintBytes(i)|
    ensures VarintBytes(i)[k] == Shifted(i, k) % 128 + if k + 1 < |VarintBytes(i)| then 128 else 0
    decreases k
  {
    if k > 0 {
      ByteHolds(i / 128, k - 1);
    }
  }

  // ---------- reading LEB128 ----------

  // A number at the front of b, and the bytes behind it.
  function ReadVarint(b: seq<byte>): Option<(nat, seq<byte>)> {
    if b == [] then None
    else if b[0] < 128 then Some((b[0], b[1..]))
    else
      match ReadVarint(b[1..])
      case None => None
      case Some((v, rest)) => Some((v * 128 + b[0] - 128, rest))
  }

  // Every number is read back, whatever follows it.
  lemma {:induction false} ReadBack(i: nat, tail: seq<byte>)
    ensures ReadVarint(VarintBytes(i) + tail) == Some((i, tail))
  {
    var b := VarintBytes(i) + tail;
    if i < 128 {
      assert b[1..] == tail;
    } else {
      assert b[1..] == VarintBytes(i / 128) + tail;
      ReadBack(i / 128, tail);
    }
  }

  // No encoding is a proper prefix of another.
  lemma PrefixFree(i: nat, j: nat)
    requires VarintBytes(i) <= VarintBytes(j)
    ensures i == j
  {
    var tail := VarintBytes(j)[|VarintBytes(i)|..];
    assert VarintBytes(j) == VarintBytes(i) + tail;
    ReadBack(i, tail);
    assert VarintBytes(j) == VarintBytes(j) + [];
    ReadBack(j, []);
  }

  // Of all byte strings that read as i, the encoding is the only shortest one.
  lemma {:induction false} Minimal(b: seq<byte>, i: nat)
    requires ReadVarint(b) == Some((i, []))
    ensures |VarintBytes(i)| <= |b|
    ensures |VarintBytes(i)| == |b| ==> VarintBytes(i) == b
    decreases b
  {
    if b[0] < 128 {
      assert b == [b[0]] + b[1..];
    } else {
      var v := ReadVarint(b[1..]).value.0;
      Minimal(b[1..], v);
      assert b == [b[0]] + b[1..];
      assert i == v * 128 + (b[0] - 128);
      assert i % 128 == b[0] - 128 && i / 128 == v;
    }
  }

  // n bytes hold exactly the numbers below 128^n.
  lemma {:induction false} LengthBound(i: nat, n: nat)
    requires n > 0
    ensures |VarintBytes(i)| <= n <==> i < Pow(128, n)
    decreases n
  {
    if n == 1 {
      assert Pow(128, 1) == 128;
    } else if i >= 128 {
      LengthBound(i / 128, n - 1);
    } else {
      assert Pow(128, n) == Pow(128, n - 2) * 128 * 128;
    }
  }

  lemma TenBytes(i: nat)
    ensures |VarintBytes(i)| <= 10 <==> i < 0x40_0000_0000_0000_0000
  {
    assert Pow(128, 5) == 0x8_0000_0000;
    assert Pow(128, 10) == 0x40_0000_0000_0000_0000;
    LengthBound(i, 10);
  }

  // ---------- derivation_to_scalar ----------

  // The buffer that derivation_to_scalar hashes.
  function DerivationBuffer(derivation: string, outputIndex: nat): Result<string> {
    if |derivation| != 64 then Err(InvalidDerivationLength)
    else
      var enc := HexOf(VarintBytes(outputIndex));
      if |enc| > 20 then Err(VarintTooLong) else Ok(derivation + enc)
  }

  // The length check admits every index below 2^70, although its message speaks of 64 bits.
  lemma BufferAccepted(derivation: string, outputIndex: nat)
    ensures DerivationBuffer(derivation, outputIndex).Ok?
            <==> |derivation| == 64 && outputIndex < 0x40_0000_0000_0000_0000
    ensures DerivationBuffer(derivation, outputIndex) == Err(InvalidDerivationLength) <==> |derivation| != 64
    ensures DerivationBuffer(derivation, outputIndex) == Err(VarintTooLong)
            <==> |derivation| == 64 && outputIndex >= 0x40_0000_0000_0000_0000
  {
    TenBytes(outputIndex);
  }

  // Different derivations or indices are hashed as different buffers.
  lemma BufferInjective(d1: string, i1: nat, d2: string, i2: nat)
    requires DerivationBuffer(d1, i1).Ok? && DerivationBuffer(d1, i1) == DerivationBuffer(d2, i2)
    ensures d1 == d2 && i1 == i2
  {
    var buf := DerivationBuffer(d1, i1).value;
    assert d1 == buf[..64] && d2 == buf[..64];
    assert HexOf(VarintBytes(i1)) == buf[64..] == HexOf(VarintBytes(i2));
    BytesOfHexOf(VarintBytes(i1));
    BytesOfHexOf(VarintBytes(i2));
    PrefixFree(i1, i2);
  }
}
