/** What the checksum of html/js/crc32.js detects: every burst of at most 32 bits, and exactly one pattern of 33 slips by. */
module Crc32Detection {
  import opened Crc32Bits
  import Crc32

  // a and b differ in at most n consecutive positions, from lo on.
  ghost predicate DifferWithin<T>(a: seq<T>, b: seq<T>, lo: nat, n: nat) {
    && |a| == |b|
    && a != b
    && lo + n <= |a|
    && a[..lo] == b[..lo]
    && a[lo + n..] == b[lo + n..]
  }

  // The 33-bit error pattern that is the generator polynomial itself.
  function Generator(): (g: seq<bool>)
    ensures |g| == 33
  {
    BitsLength(POLY, 32);
    [true] + Bits(POLY, 32)
  }

  predicate AtLeast(r: bv32, lo: bv32) {
    r >= lo
  }

  function Halve(lo: bv32): bv32 {
    lo >> 1
  }

  // lo can be halved n times without vanishing.
  predicate Room(lo: bv32, n: nat)
    decreases n
  {
    if n == 0 then AtLeast(lo, 1) else Room(Halve(lo), n - 1)
  }

  lemma HalfLeft(lo: bv32)
    requires AtLeast(Halve(lo), 1)
    ensures AtLeast(lo, 1)
  {
  }

  lemma {:induction false} RoomForLess(lo: bv32, n: nat, m: nat)
    requires m <= n && Room(lo, n)
    ensures Room(lo, m) && AtLeast(lo, 1)
    decreases n
  {
    hide Halve, AtLeast;
    if n > 0 {
      RoomForLess(Halve(lo), n - 1, if m == 0 then 0 else m - 1);
      HalfLeft(lo);
    }
  }

  lemma TopRoom()
    ensures Room(0x8000_0000, 31)
  {
    assert Room(0x8, 3);
    assert Room(0x80, 7);
    assert Room(0x800, 11);
    assert Room(0x8000, 15);
    assert Room(0x8_0000, 19);
    assert Room(0x80_0000, 23);
    assert Room(0x800_0000, 27);
  }

  // A set bit of the remainder falls by at most one place in a step.
  lemma StepKeepsHigh(r: bv32, bit: bool, lo: bv32)
    requires AtLeast(r, lo)
    ensures AtLeast(BitStep(Plus(r, Word(bit))), Halve(lo))
  {
  }

  lemma NotZero(r: bv32, lo: bv32)
    requires AtLeast(r, lo) && AtLeast(lo, 1)
    ensures r != 0
  {
  }

  lemma {:induction false} LiveRemainder(r: bv32, lo: bv32, bits: seq<bool>)
    requires AtLeast(r, lo) && Room(lo, |bits|)
    ensures FeedBits(r, bits) != 0
    decreases bits
  {
    hide BitStep, Word, Plus, AtLeast, Halve;
    if bits == [] {
      NotZero(r, lo);
    } else {
      StepKeepsHigh(r, bits[0], lo);
      LiveRemainder(BitStep(Plus(r, Word(bits[0]))), Halve(lo), bits[1..]);
    }
  }

  lemma FirstErrorBit()
    ensures BitStep(Plus(0, Word(true))) == POLY
    ensures BitStep(Plus(0, Word(false))) == 0
    ensures AtLeast(POLY, 0x8000_0000)
  {
  }

  // A non-zero error pattern of at most 32 bits never leaves a zero remainder.
  lemma {:induction false} ShortPatternShows(e: seq<bool>)
    requires |e| <= 32 && FeedBits(0, e) == 0
    ensures e == Zeros(|e|)
    decreases e
  {
    hide BitStep, Word, Plus, AtLeast, Room;
    if e != [] {
      FirstErrorBit();
      TopRoom();
      if e[0] {
        RoomForLess(0x8000_0000, 31, |e| - 1);
        LiveRemainder(POLY, 0x8000_0000, e[1..]);
      } else {
        ShortPatternShows(e[1..]);
        assert e == [false] + e[1..];
      }
    }
  }

  // ---------- from error patterns to messages ----------

  lemma XorZeros(a: seq<bool>, b: seq<bool>)
    requires |a| == |b| && Xor(a, b) == Zeros(|a|)
    ensures a == b
  {
    forall i | 0 <= i < |a| ensures a[i] == b[i] {
      assert !Xor(a, b)[i];
    }
  }

  // The same remainder, two different windows.
  lemma WindowShows(r: bv32, x: seq<bool>, y: seq<bool>)
    requires |x| == |y| <= 32 && FeedBits(r, x) == FeedBits(r, y)
    ensures x == y
  {
    hide FeedBits, Plus;
    FeedBitsLinear(r, r, x, y);
    PlusCancels(r, r);
    PlusCancels(FeedBits(r, x), 0);
    ShortPatternShows(Xor(x, y));
    XorZeros(x, y);
  }

  lemma BitStepOnlyZero(x: bv32)
    requires BitStep(x) == 0
    ensures x == 0
  {
  }

  // Feeding the same bits to two remainders never merges them.
  lemma {:induction false} FeedBitsInjective(r: bv32, s: bv32, bits: seq<bool>)
    requires FeedBits(r, bits) == FeedBits(s, bits)
    ensures r == s
    decreases bits
  {
    hide BitStep, Word, Plus;
    if bits != [] {
      var r', s' := Plus(r, Word(bits[0])), Plus(s, Word(bits[0]));
      FeedBitsInjective(BitStep(r'), BitStep(s'), bits[1..]);
      BitStepLinear(r', s');
      PlusCancels(BitStep(r'), 0);
      BitStepOnlyZero(Plus(r', s'));
      PlusCancels(r', s');
      PlusLaws(r, Word(bits[0]), Word(bits[0]));
      PlusLaws(s, Word(bits[0]), Word(bits[0]));
      PlusCancels(Word(bits[0]), 0);
    }
  }

  // Every burst error of at most 32 bits, at any position, changes the remainder.
  lemma BurstDetected(r: bv32, a: seq<bool>, b: seq<bool>, lo: nat, n: nat)
    requires DifferWithin(a, b, lo, n) && n <= 32
    ensures FeedBits(r, a) != FeedBits(r, b)
  {
    hide FeedBits;
    if FeedBits(r, a) == FeedBits(r, b) {
      SplitWindow(r, a, lo, n);
      SplitWindow(r, b, lo, n);
      var s := FeedBits(r, a[..lo]);
      FeedBitsInjective(FeedBits(s, a[lo..lo + n]), FeedBits(s, b[lo..lo + n]), a[lo + n..]);
      WindowShows(s, a[lo..lo + n], b[lo..lo + n]);
      WindowsDiffer(a, b, lo, n);
    }
  }

  lemma SplitWindow(r: bv32, a: seq<bool>, lo: nat, n: nat)
    requires lo + n <= |a|
    ensures FeedBits(r, a) == FeedBits(FeedBits(FeedBits(r, a[..lo]), a[lo..lo + n]), a[lo + n..])
  {
    hide FeedBits;
    assert a == a[..lo] + a[lo..lo + n] + a[lo + n..];
    FeedBitsConcat(r, a[..lo] + a[lo..lo + n], a[lo + n..]);
    FeedBitsConcat(r, a[..lo], a[lo..lo + n]);
  }

  lemma WindowsDiffer<T>(a: seq<T>, b: seq<T>, lo: nat, n: nat)
    requires DifferWithin(a, b, lo, n)
    ensures a[lo..lo + n] != b[lo..lo + n]
  {
  }

  // ---------- the bound is sharp ----------

  lemma {:induction false} BitsLength(w: bv32, n: nat)
    ensures |Bits(w, n)| == n
    decreases n
  {
    if n > 0 {
      BitsLength(w >> 1, n - 1);
    }
  }

  lemma {:induction false} ZeroStays(n: nat)
    ensures BitSteps(0, n) == 0
    decreases n
  {
    if n > 0 {
      ZeroStays(n - 1);
    }
  }

  lemma PolyShiftsOut()
    ensures ShiftOut(POLY, 32) == 0
  {
    assert ShiftOut(0xE, 4) == 0;
    assert ShiftOut(0xED, 8) == 0;
    assert ShiftOut(0xEDB, 12) == 0;
    assert ShiftOut(0xEDB8, 16) == 0;
    assert ShiftOut(0xE_DB88, 20) == 0;
    assert ShiftOut(0xED_B883, 24) == 0;
    assert ShiftOut(0xEDB_8832, 28) == 0;
  }

  lemma GeneratorVanishes()
    ensures FeedBits(POLY, Bits(POLY, 32)) == 0
  {
    PolyShiftsOut();
    hide FeedBits, Bits, BitSteps, ShiftOut, Plus;
    Serial(POLY, POLY, 32);
    PlusCancels(POLY, 0);
    ZeroStays(32);
    PlusCancels(FeedBits(POLY, Bits(POLY, 32)), ShiftOut(POLY, 32));
  }

  lemma FirstBitOn(e: seq<bool>)
    requires e != [] && e[0]
    ensures FeedBits(0, e) == FeedBits(POLY, e[1..])
  {
  }

  lemma FirstBitOff(e: seq<bool>)
    requires e != [] && !e[0]
    ensures FeedBits(0, e) == FeedBits(0, e[1..])
  {
  }

  // Of all 33-bit error patterns only the generator polynomial itself leaves no trace.
  lemma PatternOf33(e: seq<bool>)
    requires |e| == 33 && e != Zeros(33)
    ensures FeedBits(0, e) == 0 <==> e == Generator()
  {
    hide FeedBits, Bits;
    assert e == [e[0]] + e[1..];
    BitsLength(POLY, 32);
    assert Generator()[1..] == Bits(POLY, 32);
    if e[0] {
      FirstBitOn(e);
      GeneratorVanishes();
      if FeedBits(0, e) == 0 {
        WindowShows(POLY, e[1..], Bits(POLY, 32));
      }
    } else {
      FirstBitOff(e);
      assert [false] + Zeros(32) == Zeros(33);
      if FeedBits(0, e) == 0 {
        ShortPatternShows(e[1..]);
      }
    }
  }

  // Two messages that differ inside a window of 33 bits collide exactly when they differ by the generator.
  lemma CollisionOf33(r: bv32, a: seq<bool>, b: seq<bool>, lo: nat)
    requires DifferWithin(a, b, lo, 33)
    ensures FeedBits(r, a) == FeedBits(r, b) <==> Xor(a[lo..lo + 33], b[lo..lo + 33]) == Generator()
  {
    hide FeedBits, Plus, Generator;
    var x, y, s := a[lo..lo + 33], b[lo..lo + 33], FeedBits(r, a[..lo]);
    SplitWindow(r, a, lo, 33);
    SplitWindow(r, b, lo, 33);
    if FeedBits(r, a) == FeedBits(r, b) {
      FeedBitsInjective(FeedBits(s, x), FeedBits(s, y), a[lo + 33..]);
    }
    FeedBitsLinear(s, s, x, y);
    PlusCancels(s, s);
    PlusCancels(FeedBits(s, x), FeedBits(s, y));
    WindowsDiffer(a, b, lo, 33);
    if Xor(x, y) == Zeros(33) {
      XorZeros(x, y);
    }
    PatternOf33(Xor(x, y));
  }

  // ---------- messages of bytes ----------

  lemma {:induction false} BitsOfConcat(a: seq<bv8>, b: seq<bv8>)
    ensures BitsOf(a + b) == BitsOf(a) + BitsOf(b)
  {
    hide Bits;
    if a == [] {
      assert a + b == b;
    } else {
      assert (a + b)[1..] == a[1..] + b;
      BitsOfConcat(a[1..], b);
    }
  }

  lemma {:induction false} BitsOfLength(a: seq<bv8>)
    ensures |BitsOf(a)| == 8 * |a|
  {
    hide Bits;
    if a != [] {
      BitsLength(a[0] as bv32, 8);
      BitsOfLength(a[1..]);
    }
  }

  predicate Odd(w: bv32) {
    w & 1 == 1
  }

  lemma LowBitAndRest(x: bv32, y: bv32)
    requires Odd(x) == Odd(y) && Halve(x) == Halve(y)
    ensures x == y
  {
  }

  lemma OneBit(w: bv32, n: nat)
    requires n > 0
    ensures |Bits(w, n)| > 0 && Bits(w, n)[0] == Odd(w) && Bits(w, n)[1..] == Bits(Halve(w), n - 1)
    ensures ShiftOut(w, n) == ShiftOut(Halve(w), n - 1)
  {
  }

  lemma {:induction false} BitsInjective(x: bv32, y: bv32, n: nat)
    requires Bits(x, n) == Bits(y, n) && ShiftOut(x, n) == ShiftOut(y, n)
    ensures x == y
    decreases n
  {
    if n > 0 {
      hide Bits, ShiftOut, Odd, Halve;
      OneBit(x, n);
      OneBit(y, n);
      BitsInjective(Halve(x), Halve(y), n - 1);
      LowBitAndRest(x, y);
    }
  }

  lemma ByteBitsInjective(x: bv8, y: bv8)
    requires Bits(x as bv32, 8) == Bits(y as bv32, 8)
    ensures x == y
  {
    hide Bits, ShiftOut;
    ByteShiftsOut(x);
    ByteShiftsOut(y);
    BitsInjective(x as bv32, y as bv32, 8);
  }

  lemma {:induction false} BitsOfInjective(a: seq<bv8>, b: seq<bv8>)
    requires |a| == |b| && BitsOf(a) == BitsOf(b)
    ensures a == b
    decreases |a|
  {
    hide Bits;
    if a != [] {
      var x, y := Bits(a[0] as bv32, 8), Bits(b[0] as bv32, 8);
      BitsLength(a[0] as bv32, 8);
      BitsLength(b[0] as bv32, 8);
      assert x == BitsOf(a)[..8] && y == BitsOf(b)[..8];
      assert BitsOf(a)[8..] == BitsOf(a[1..]) && BitsOf(b)[8..] == BitsOf(b[1..]);
      ByteBitsInjective(a[0], b[0]);
      BitsOfInjective(a[1..], b[1..]);
      assert a == [a[0]] + a[1..] && b == [b[0]] + b[1..];
    }
  }

  lemma BitsOfParts(a: seq<bv8>, i: nat)
    requires i <= |a|
    ensures |BitsOf(a)| == 8 * |a|
    ensures BitsOf(a)[..8 * i] == BitsOf(a[..i]) && BitsOf(a)[8 * i..] == BitsOf(a[i..])
  {
    hide BitsOf;
    assert a == a[..i] + a[i..];
    BitsOfConcat(a[..i], a[i..]);
    BitsOfLength(a[..i]);
    BitsOfLength(a);
  }

  lemma WindowOfBits(a: seq<bv8>, b: seq<bv8>, lo: nat, n: nat)
    requires DifferWithin(a, b, lo, n)
    ensures DifferWithin(BitsOf(a), BitsOf(b), 8 * lo, 8 * n)
  {
    hide BitsOf;
    BitsOfParts(a, lo);
    BitsOfParts(b, lo);
    BitsOfParts(a, lo + n);
    BitsOfParts(b, lo + n);
    if BitsOf(a) == BitsOf(b) {
      BitsOfInjective(a, b);
    }
  }

  // Strings that differ inside at most four consecutive bytes have different checksums.
  lemma ByteBurstDetected(a: seq<bv8>, b: seq<bv8>, lo: nat, n: nat)
    requires DifferWithin(a, b, lo, n) && n <= 4
    ensures Crc32.Checksum(a) != Crc32.Checksum(b)
  {
    hide FeedBits, BitsOf;
    WindowOfBits(a, b, lo, n);
    BurstDetected(0xFFFF_FFFF, BitsOf(a), BitsOf(b), 8 * lo, 8 * n);
    ComplementInjective(FeedBits(0xFFFF_FFFF, BitsOf(a)), FeedBits(0xFFFF_FFFF, BitsOf(b)));
  }

  lemma ComplementInjective(x: bv32, y: bv32)
    requires x != y
    ensures x ^ 0xFFFF_FFFF != y ^ 0xFFFF_FFFF
  {
  }
}
