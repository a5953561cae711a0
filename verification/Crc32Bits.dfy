/**
  The bit-at-a-time reflected CRC-32 of section 8 of RFC 1952 (section 8.1.1.6.2 of ITU-T V.42), the reference
  form that html/js/crc32.js computes a byte at a time. The remainder is an unsigned 32-bit word.
 */
module Crc32Bits {
  // The generator polynomial, reflected.
  const POLY: bv32 := 0xEDB8_8320

  // Exclusive or, named so that proofs about long streams can hide it and use only its laws.
  function Plus(x: bv32, y: bv32): bv32 {
    x ^ y
  }

  function BitStep(r: bv32): bv32 {
    if r & 1 == 1 then Plus(r >> 1, POLY) else r >> 1
  }

  function BitSteps(r: bv32, n: nat): bv32
    decreases n
  {
    if n == 0 then r else BitSteps(BitStep(r), n - 1)
  }

  // Eight bit steps, written out.
  function ByteSteps(r: bv32): bv32 {
    BitStep(BitStep(BitStep(BitStep(BitStep(BitStep(BitStep(BitStep(r))))))))
  }

  function Word(bit: bool): bv32 {
    if bit then 1 else 0
  }

  // The remainder after a stream of message bits.
  function FeedBits(r: bv32, bits: seq<bool>): bv32
    decreases bits
  {
    if bits == [] then r else FeedBits(BitStep(Plus(r, Word(bits[0]))), bits[1..])
  }

  // The low n bits of w, least significant first: the order in which the bits of a byte are sent.
  function Bits(w: bv32, n: nat): seq<bool>
    decreases n
  {
    if n == 0 then [] else [w & 1 == 1] + Bits(w >> 1, n - 1)
  }

  // w shifted right by n.
  function ShiftOut(w: bv32, n: nat): bv32
    decreases n
  {
    if n == 0 then w else ShiftOut(w >> 1, n - 1)
  }

  // The remainder after a message of bytes.
  function Bitwise(r: bv32, bytes: seq<bv8>): bv32
    decreases bytes
  {
    if bytes == [] then r else Bitwise(FeedBits(r, Bits(bytes[0] as bv32, 8)), bytes[1..])
  }

  // The bits of a message.
  function BitsOf(bytes: seq<bv8>): seq<bool> {
    if bytes == [] then [] else Bits(bytes[0] as bv32, 8) + BitsOf(bytes[1..])
  }

  function Xor(a: seq<bool>, b: seq<bool>): (c: seq<bool>)
    requires |a| == |b|
  {
    seq(|a|, i requires 0 <= i < |a| => a[i] != b[i])
  }

  function Zeros(n: nat): seq<bool> {
    seq(n, _ => false)
  }

  // ---------- one bit step ----------

  lemma PlusAssociates(x: bv32, y: bv32, a: bv32)
    ensures Plus(Plus(x, y), a) == Plus(x, Plus(y, a))
  {
  }

  lemma PlusCommutes(x: bv32, y: bv32)
    ensures Plus(x, y) == Plus(y, x)
  {
  }

  lemma PlusCancels(x: bv32, y: bv32)
    ensures Plus(x, 0) == x && Plus(x, x) == 0
    ensures Plus(x, y) == 0 ==> x == y
  {
  }

  lemma PlusLaws(x: bv32, y: bv32, a: bv32)
    ensures Plus(Plus(x, y), a) == Plus(x, Plus(y, a)) == Plus(Plus(x, a), y)
    ensures Plus(x, 0) == x && Plus(x, x) == 0
  {
  }

  lemma PlusGroups(x: bv32, y: bv32, a: bv32, b: bv32)
    ensures Plus(Plus(x, y), Plus(a, b)) == Plus(Plus(x, a), Plus(y, b))
  {
    hide Plus;
    PlusLaws(x, y, Plus(a, b));
    PlusAssociates(x, a, b);
    PlusAssociates(Plus(x, a), b, y);
    PlusCommutes(b, y);
  }

  lemma PlusBits(x: bv32, y: bv32)
    ensures Plus(x, y) >> 1 == Plus(x >> 1, y >> 1)
    ensures Plus(x, y) & 1 == 1 <==> (x & 1 == 1) != (y & 1 == 1)
  {
    assert (x ^ y) & 1 == (x & 1) ^ (y & 1);
    assert x & 1 == 0 || x & 1 == 1;
    assert y & 1 == 0 || y & 1 == 1;
  }

  lemma BitStepLinear(x: bv32, y: bv32)
    ensures BitStep(Plus(x, y)) == Plus(BitStep(x), BitStep(y))
  {
    hide Plus;
    PlusBits(x, y);
    PlusGroups(x >> 1, y >> 1, POLY, POLY);
    PlusLaws(POLY, POLY, 0);
    PlusLaws(Plus(x >> 1, y >> 1), 0, 0);
    PlusLaws(x >> 1, y >> 1, POLY);
  }

  lemma WordPlus(a: bool, b: bool)
    ensures Word(a != b) == Plus(Word(a), Word(b))
  {
  }

  lemma {:induction false} BitStepsLinear(x: bv32, y: bv32, n: nat)
    ensures BitSteps(Plus(x, y), n) == Plus(BitSteps(x, n), BitSteps(y, n))
    decreases n
  {
    hide BitStep, Plus;
    if n > 0 {
      BitStepLinear(x, y);
      BitStepsLinear(BitStep(x), BitStep(y), n - 1);
    }
  }

  lemma ByteStepsIsEight(r: bv32)
    ensures ByteSteps(r) == BitSteps(r, 8)
  {
  }

  lemma ByteStepsLinear(x: bv32, y: bv32)
    ensures ByteSteps(Plus(x, y)) == Plus(ByteSteps(x), ByteSteps(y))
  {
    hide ByteSteps, BitSteps, Plus;
    ByteStepsIsEight(x);
    ByteStepsIsEight(y);
    ByteStepsIsEight(Plus(x, y));
    BitStepsLinear(x, y, 8);
  }

  // ---------- whole streams ----------

  lemma {:induction false} FeedBitsLinear(r: bv32, s: bv32, a: seq<bool>, b: seq<bool>)
    requires |a| == |b|
    ensures FeedBits(Plus(r, s), Xor(a, b)) == Plus(FeedBits(r, a), FeedBits(s, b))
    decreases a
  {
    hide BitStep, Word, Plus;
    if a != [] {
      var c := Xor(a, b);
      assert c[1..] == Xor(a[1..], b[1..]);
      WordPlus(a[0], b[0]);
      PlusGroups(r, s, Word(a[0]), Word(b[0]));
      BitStepLinear(Plus(r, Word(a[0])), Plus(s, Word(b[0])));
      FeedBitsLinear(BitStep(Plus(r, Word(a[0]))), BitStep(Plus(s, Word(b[0]))), a[1..], b[1..]);
    }
  }

  lemma {:induction false} FeedBitsConcat(r: bv32, a: seq<bool>, b: seq<bool>)
    ensures FeedBits(r, a + b) == FeedBits(FeedBits(r, a), b)
    decreases a
  {
    hide BitStep, Word, Plus;
    if a == [] {
      assert a + b == b;
    } else {
      assert (a + b)[1..] == a[1..] + b;
      FeedBitsConcat(BitStep(Plus(r, Word(a[0]))), a[1..], b);
    }
  }

  // Feeding a message byte by byte is feeding its bits one by one.
  lemma {:induction false} BitwiseIsBitSerial(r: bv32, bytes: seq<bv8>)
    ensures Bitwise(r, bytes) == FeedBits(r, BitsOf(bytes))
    decreases bytes
  {
    hide BitStep, Word, Bits, Plus;
    if bytes != [] {
      var first := Bits(bytes[0] as bv32, 8);
      FeedBitsConcat(r, first, BitsOf(bytes[1..]));
      BitwiseIsBitSerial(FeedBits(r, first), bytes[1..]);
    }
  }

  lemma {:induction false} BitwiseConcat(r: bv32, a: seq<bv8>, b: seq<bv8>)
    ensures Bitwise(r, a + b) == Bitwise(Bitwise(r, a), b)
    decreases a
  {
    hide BitStep, Word, Bits, FeedBits, Plus;
    if a == [] {
      assert a + b == b;
    } else {
      assert (a + b)[1..] == a[1..] + b;
      BitwiseConcat(FeedBits(r, Bits(a[0] as bv32, 8)), a[1..], b);
    }
  }

  lemma HighPart(w: bv32)
    ensures BitStep(w & 0xFFFF_FFFE) == w >> 1
    ensures w == Plus(Word(w & 1 == 1), w & 0xFFFF_FFFE)
  {
    assert w & 1 == 0 || w & 1 == 1;
    assert (w & 0xFFFF_FFFE) & 1 == 0;
    assert (w & 0xFFFF_FFFE) >> 1 == w >> 1;
    assert w == (w & 1) ^ (w & 0xFFFF_FFFE);
  }

  // A word added to the remainder acts through its low bit now and through the rest one step later.
  lemma SplitLow(r: bv32, w: bv32)
    ensures BitStep(Plus(r, w)) == Plus(BitStep(Plus(r, Word(w & 1 == 1))), w >> 1)
  {
    hide BitStep, Word, Plus;
    var low, rest := Word(w & 1 == 1), w & 0xFFFF_FFFE;
    HighPart(w);
    PlusLaws(r, low, rest);
    BitStepLinear(Plus(r, low), rest);
  }

  // Bit serial feeding of the low bits of w equals adding w in first and then stepping.
  lemma {:induction false} Serial(r: bv32, w: bv32, n: nat)
    ensures BitSteps(Plus(r, w), n) == Plus(FeedBits(r, Bits(w, n)), ShiftOut(w, n))
    decreases n
  {
    hide BitStep, Word, Plus;
    if n > 0 {
      SplitLow(r, w);
      Serial(BitStep(Plus(r, Word(w & 1 == 1))), w >> 1, n - 1);
      assert Bits(w, n)[1..] == Bits(w >> 1, n - 1);
    }
  }

  // A byte has no bits beyond the eighth.
  lemma ByteShiftsOut(b: bv8)
    ensures ShiftOut(b as bv32, 8) == 0
  {
  }

  // Eight message bits at a time: add the byte in, then step eight times.
  lemma ByteFeed(r: bv32, b: bv8)
    ensures FeedBits(r, Bits(b as bv32, 8)) == ByteSteps(Plus(r, b as bv32))
  {
    hide *;
    var fed := FeedBits(r, Bits(b as bv32, 8));
    Serial(r, b as bv32, 8);
    ByteShiftsOut(b);
    ByteStepsIsEight(Plus(r, b as bv32));
    PlusLaws(fed, 0, 0);
  }
}
