/** The running checksum of html/js/crc32.js: the table loop, and what the code it computes detects. */
module Crc32 {
  import opened Crc32Bits
  import opened Crc32Table

  class Type {
    var rem_: bv32

    constructor ()
      ensures rem_ == 0xFFFF_FFFF
    {
      rem_ := 0xFFFF_FFFF;
    }

    method Checksum() returns (c: bv32)
      ensures c == rem_ ^ 0xFFFF_FFFF
    {
      c := rem_ ^ 0xFFFF_FFFF;
    }

    // The table loop, from any starting remainder, feeds the bits of str one at a time.
    method ProcessString(str: seq<bv8>)
      modifies this
      ensures rem_ == FeedBits(old(rem_), BitsOf(str))
    {
      BitwiseIsBitSerial(rem_, str);
      for i := 0 to |str|
        invariant Bitwise(rem_, str[i..]) == FeedBits(old(rem_), BitsOf(str))
      {
        hide Bits, FeedBits, BitsOf, Entry, Plus, ByteIndex;
        TableStep(rem_, str[i]);
        assert str[i..][1..] == str[i + 1..];
        rem_ := Plus(rem_ >> 8, Entry(ByteIndex(rem_, str[i])));
      }
    }
  }

  // crc32.run
  method Run(str: seq<bv8>) returns (c: bv32)
    ensures c == Checksum(str)
  {
    var crc := new Type();
    crc.ProcessString(str);
    c := crc.Checksum();
  }

  // The checksum RFC 1952 defines: all-ones start, message bits, complement.
  function Checksum(str: seq<bv8>): bv32 {
    FeedBits(0xFFFF_FFFF, BitsOf(str)) ^ 0xFFFF_FFFF
  }

  // ---------- the table step is eight bit steps ----------

  // The index of the table entry, as the loop computes it.
  function ByteIndex(rem: bv32, b: bv8): bv8 {
    (((b as bv32) ^ rem) & 0xFF) as bv8
  }

  // With the low byte clear the eight steps only shift.
  lemma HighBytesShift(x: bv32)
    requires x & 0xFF == 0
    ensures ByteSteps(x) == x >> 8
  {
  }

  lemma IndexSplits(rem: bv32, b: bv8)
    ensures Plus(rem & 0xFFFF_FF00, ByteIndex(rem, b) as bv32) == Plus(rem, b as bv32)
    ensures (rem & 0xFFFF_FF00) & 0xFF == 0
    ensures (rem & 0xFFFF_FF00) >> 8 == rem >> 8
  {
  }

  lemma TableStep(rem: bv32, b: bv8)
    ensures Plus(rem >> 8, Entry(ByteIndex(rem, b))) == FeedBits(rem, Bits(b as bv32, 8))
  {
    hide ByteSteps, FeedBits, Bits, Entry, Plus, ByteIndex;
    IndexSplits(rem, b);
    var high, low := rem & 0xFFFF_FF00, ByteIndex(rem, b);
    EntryTied(low);
    HighBytesShift(high);
    ByteStepsLinear(high, low as bv32);
    ByteFeed(rem, b);
  }

  // Three bytes, with numbers: the remainders between them.
  lemma Three(r0: bv32, a: bv8, r1: bv32, b: bv8, r2: bv32, c: bv8, r3: bv32)
    requires Plus(r0 >> 8, Entry(ByteIndex(r0, a))) == r1
    requires Plus(r1 >> 8, Entry(ByteIndex(r1, b))) == r2
    requires Plus(r2 >> 8, Entry(ByteIndex(r2, c))) == r3
    ensures Bitwise(r0, [a, b, c]) == r3
  {
    hide Bits, FeedBits, Entry, Plus, ByteIndex;
    TableStep(r0, a);
    TableStep(r1, b);
    TableStep(r2, c);
    assert [a, b, c][1..] == [b, c] && [b, c][1..] == [c] && [c][1..] == [];
    assert Bitwise(r2, [c]) == Bitwise(r3, []) == r3;
    assert Bitwise(r1, [b, c]) == Bitwise(r2, [c]);
  }

  lemma OneTwoThree()
    ensures Bitwise(0xFFFF_FFFF, [0x31, 0x32, 0x33]) == 0x77B7_9C2D
  {
    Three(0xFFFF_FFFF, 0x31, 0x7C23_1048, 0x32, 0xB0AC_BB32, 0x33, 0x77B7_9C2D);
  }

  lemma FourFiveSix()
    ensures Bitwise(0x77B7_9C2D, [0x34, 0x35, 0x36]) == 0xF68D_2C9E
  {
    Three(0x77B7_9C2D, 0x34, 0x641C_1F5C, 0x35, 0x340A_C5E3, 0x36, 0xF68D_2C9E);
  }

  lemma SevenEightNine()
    ensures Bitwise(0xF68D_2C9E, [0x37, 0x38, 0x39]) == 0x340B_C6D9
  {
    Three(0xF68D_2C9E, 0x37, 0xAFFC_9660, 0x38, 0x651F_2550, 0x39, 0x340B_C6D9);
  }

  // The check value of the code: the checksum of the nine characters 1 to 9.
  lemma CheckValue()
    ensures Checksum([0x31, 0x32, 0x33, 0x34, 0x35, 0x36, 0x37, 0x38, 0x39]) == 0xCBF4_3926
  {
    hide Bitwise, FeedBits, BitsOf;
    OneTwoThree();
    FourFiveSix();
    SevenEightNine();
    BitwiseConcat(0xFFFF_FFFF, [0x31, 0x32, 0x33], [0x34, 0x35, 0x36]);
    BitwiseConcat(0xFFFF_FFFF, [0x31, 0x32, 0x33] + [0x34, 0x35, 0x36], [0x37, 0x38, 0x39]);
    var s: seq<bv8> := [0x31, 0x32, 0x33] + [0x34, 0x35, 0x36] + [0x37, 0x38, 0x39];
    assert s == [0x31, 0x32, 0x33, 0x34, 0x35, 0x36, 0x37, 0x38, 0x39];
    BitwiseIsBitSerial(0xFFFF_FFFF, s);
  }
}
