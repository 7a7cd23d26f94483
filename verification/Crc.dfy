/** CRC-32C (Castagnoli), bit by bit, and why it exposes any single damaged byte. */
module Crc {
  import opened ByteString

  /** The Castagnoli polynomial, reflected. */
  const POLY: bv32 := 0x82F6_3B78
  const ONES: bv32 := 0xFFFF_FFFF

  function BitStep(s: bv32): (r: bv32) {
    if s & 1 == 1 then (s >> 1) ^ POLY else s >> 1
  }

  function EightSteps(s: bv32): (r: bv32) {
    BitStep(BitStep(BitStep(BitStep(BitStep(BitStep(BitStep(BitStep(s))))))))
  }

  predicate Bit(b: byte, pow: nat)
    requires pow > 0
  {
    b / pow % 2 == 1
  }

  function Pack(b7: bool, b6: bool, b5: bool, b4: bool, b3: bool, b2: bool, b1: bool, b0: bool): (r: bv32) {
    (if b7 then 128 else 0) | (if b6 then 64 else 0) | (if b5 then 32 else 0) | (if b4 then 16 else 0) |
    (if b3 then 8 else 0) | (if b2 then 4 else 0) | (if b1 then 2 else 0) | (if b0 then 1 else 0)
  }

  /** The byte's bits, as the low bits of a word. */
  function ToBits(b: byte): (r: bv32) {
    Pack(Bit(b, 128), Bit(b, 64), Bit(b, 32), Bit(b, 16), Bit(b, 8), Bit(b, 4), Bit(b, 2), Bit(b, 1))
  }

  function Mix(s: bv32, v: bv32): (r: bv32) {
    s ^ v
  }

  function ByteStep(s: bv32, b: byte): (r: bv32) {
    EightSteps(Mix(s, ToBits(b)))
  }

  function Update(s: bv32, data: Bytes): (r: bv32)
    decreases data
  {
    if data == [] then s else Update(ByteStep(s, data[0]), data[1..])
  }

  function ToInt(s: bv32): (n: u32) {
    s as int
  }

  function Crc32c(data: Bytes): (sum: u32) {
    ToInt(Mix(Update(ONES, data), ONES))
  }

  /** One bit step loses nothing: the polynomial's top bit records what was shifted out. */
  lemma BitStepInjective(a: bv32, b: bv32)
    requires BitStep(a) == BitStep(b)
    ensures a == b
  {
  }

  lemma EightInjective(a: bv32, b: bv32)
    requires EightSteps(a) == EightSteps(b)
    ensures a == b
  {
    hide BitStep;
    var a1, b1 := BitStep(a), BitStep(b);
    var a2, b2 := BitStep(a1), BitStep(b1);
    var a3, b3 := BitStep(a2), BitStep(b2);
    var a4, b4 := BitStep(a3), BitStep(b3);
    var a5, b5 := BitStep(a4), BitStep(b4);
    var a6, b6 := BitStep(a5), BitStep(b5);
    var a7, b7 := BitStep(a6), BitStep(b6);
    BitStepInjective(a7, b7);
    BitStepInjective(a6, b6);
    BitStepInjective(a5, b5);
    BitStepInjective(a4, b4);
    BitStepInjective(a3, b3);
    BitStepInjective(a2, b2);
    BitStepInjective(a1, b1);
    BitStepInjective(a, b);
  }

  lemma MixInjective(a: bv32, b: bv32, v: bv32, w: bv32)
    ensures Mix(a, v) == Mix(b, v) ==> a == b
    ensures Mix(a, v) == Mix(a, w) ==> v == w
  {
  }

  lemma PackValue(b7: bool, b6: bool, b5: bool, b4: bool, b3: bool, b2: bool, b1: bool, b0: bool)
    ensures ToInt(Pack(b7, b6, b5, b4, b3, b2, b1, b0)) ==
            (if b7 then 128 else 0) + (if b6 then 64 else 0) + (if b5 then 32 else 0) + (if b4 then 16 else 0) +
            (if b3 then 8 else 0) + (if b2 then 4 else 0) + (if b1 then 2 else 0) + (if b0 then 1 else 0)
  {
  }

  lemma HalfOf(x: byte, p: nat)
    requires p == 1 || p == 2 || p == 4 || p == 8 || p == 16 || p == 32 || p == 64 || p == 128
    ensures x / p == 2 * (x / (2 * p)) + (if Bit(x, p) then 1 else 0)
  {
  }

  lemma ByteIsBits(b: byte)
    ensures b == (if Bit(b, 128) then 128 else 0) + (if Bit(b, 64) then 64 else 0) + (if Bit(b, 32) then 32 else 0) +
                 (if Bit(b, 16) then 16 else 0) + (if Bit(b, 8) then 8 else 0) + (if Bit(b, 4) then 4 else 0) +
                 (if Bit(b, 2) then 2 else 0) + (if Bit(b, 1) then 1 else 0)
  {
    hide Bit;
    HalfOf(b, 1);
    HalfOf(b, 2);
    HalfOf(b, 4);
    HalfOf(b, 8);
    assert b == 16 * (b / 16) + (if Bit(b, 8) then 8 else 0) + (if Bit(b, 4) then 4 else 0) +
                (if Bit(b, 2) then 2 else 0) + (if Bit(b, 1) then 1 else 0);
    HighBits(b);
  }

  lemma HighBits(b: byte)
    ensures b / 16 == (if Bit(b, 128) then 8 else 0) + (if Bit(b, 64) then 4 else 0) + (if Bit(b, 32) then 2 else 0) +
                      (if Bit(b, 16) then 1 else 0)
  {
    hide Bit;
    HalfOf(b, 16);
    HalfOf(b, 32);
    HalfOf(b, 64);
    HalfOf(b, 128);
  }

  /** The word that stands for a byte has the byte's value. */
  lemma ToBitsValue(b: byte)
    ensures ToInt(ToBits(b)) == b
    ensures ToBits(b) == FromInt(b)
  {
    hide Bit, Pack, ToInt, FromInt;
    ByteIsBits(b);
    PackValue(Bit(b, 128), Bit(b, 64), Bit(b, 32), Bit(b, 16), Bit(b, 8), Bit(b, 4), Bit(b, 2), Bit(b, 1));
    ToIntRoundTrip(ToBits(b));
  }

  /** A byte step is injective in the state and in the byte. */
  lemma ByteStepInjective(a: bv32, b: bv32, x: byte, y: byte)
    ensures ByteStep(a, x) == ByteStep(b, x) ==> a == b
    ensures ByteStep(a, x) == ByteStep(a, y) ==> x == y
  {
    hide EightSteps, Mix, ToBits;
    var v, w := ToBits(x), ToBits(y);
    MixInjective(a, b, v, w);
    if ByteStep(a, x) == ByteStep(b, x) {
      EightInjective(Mix(a, v), Mix(b, v));
    }
    if ByteStep(a, x) == ByteStep(a, y) {
      EightInjective(Mix(a, v), Mix(a, w));
      ToBitsValue(x);
      ToBitsValue(y);
    }
  }

  lemma {:induction false} UpdateInjective(a: bv32, b: bv32, data: Bytes)
    requires Update(a, data) == Update(b, data)
    ensures a == b
    decreases data
  {
    hide ByteStep;
    if data != [] {
      UpdateInjective(ByteStep(a, data[0]), ByteStep(b, data[0]), data[1..]);
      ByteStepInjective(a, b, data[0], data[0]);
    }
  }

  lemma {:induction false} UpdateJoin(s: bv32, a: Bytes, b: Bytes)
    ensures Update(s, a + b) == Update(Update(s, a), b)
    decreases a
  {
    hide ByteStep;
    if a == [] {
      NilJoin(b);
    } else {
      assert (a + b)[0] == a[0] && (a + b)[1..] == a[1..] + b;
      UpdateJoin(ByteStep(s, a[0]), a[1..], b);
    }
  }

  /** Changing any one byte of the data changes its checksum. */
  lemma OneByteChangesCrc(data: Bytes, i: nat, x: byte)
    requires i < |data| && x != data[i]
    ensures Crc32c(data[i := x]) != Crc32c(data)
  {
    hide ByteStep, Update, Crc32c;
    var p, q := data[..i], data[i + 1..];
    assert data == p + ([data[i]] + q) && data[i := x] == p + ([x] + q);
    var s := Update(ONES, p);
    UpdateJoin(ONES, p, [data[i]] + q);
    UpdateJoin(ONES, p, [x] + q);
    UpdateJoin(s, [data[i]], q);
    UpdateJoin(s, [x], q);
    if Crc32c(data[i := x]) == Crc32c(data) {
      CrcInjective(data[i := x], data);
      UpdateInjective(Update(s, [x]), Update(s, [data[i]]), q);
      SingleInjective(s, x, data[i]);
    }
  }

  lemma SingleInjective(s: bv32, x: byte, y: byte)
    requires Update(s, [x]) == Update(s, [y])
    ensures x == y
  {
    hide ByteStep;
    assert Update(s, [x]) == ByteStep(s, x) && Update(s, [y]) == ByteStep(s, y);
    ByteStepInjective(s, s, x, y);
  }

  lemma CrcInjective(a: Bytes, b: Bytes)
    requires Crc32c(a) == Crc32c(b)
    ensures Update(ONES, a) == Update(ONES, b)
  {
    hide Update, Mix, ToInt;
    ToIntInjective(Mix(Update(ONES, a), ONES), Mix(Update(ONES, b), ONES));
    MixInjective(Update(ONES, a), Update(ONES, b), ONES, ONES);
  }

  function FromInt(n: u32): (s: bv32) {
    n as bv32
  }

  lemma ToIntRoundTrip(a: bv32)
    ensures FromInt(ToInt(a)) == a
  {
  }

  lemma ToIntInjective(a: bv32, b: bv32)
    requires ToInt(a) == ToInt(b)
    ensures a == b
  {
    hide ToInt, FromInt;
    ToIntRoundTrip(a);
    ToIntRoundTrip(b);
  }

  // ----- Published values -----

  /** One byte more of a known computation; `v` is the byte as a word. */
  lemma Feed(d: Bytes, i: nat, s: bv32, v: bv32, r: bv32)
    requires i < |d| && d[i] == ToInt(v) && EightSteps(Mix(s, v)) == r
    ensures Update(s, d[i..]) == Update(r, d[i + 1..])
  {
    hide ToBits, EightSteps, Mix, ToInt, FromInt;
    ToBitsValue(d[i]);
    ToIntRoundTrip(v);
    assert d[i..][0] == d[i] && d[i..][1..] == d[i + 1..];
  }

  lemma UpdateNil(s: bv32)
    ensures Update(s, []) == s
  {
  }

  const DIGITS: Bytes := [49, 50, 51, 52, 53, 54, 55, 56, 57]
  const LETTER: Bytes := [97]

  function Ascending(): (d: Bytes)
    ensures |d| == 32 && forall i :: 0 <= i < 32 ==> d[i] == i
  {
    seq(32, i requires 0 <= i < 32 => i)
  }

  lemma CheckVector0()
    ensures Update(0xFFFFFFFF, DIGITS[0..]) == Update(0xE72EDCCA, DIGITS[5..])
  {
    hide ByteStep, Update;
    var d := DIGITS;
    Feed(d, 0, 0xFFFFFFFF, 49, 0x6F0A661C);
    Feed(d, 1, 0x6F0A661C, 50, 0x8CAA3B9F);
    Feed(d, 2, 0x8CAA3B9F, 51, 0xEF84D04D);
    Feed(d, 3, 0xEF84D04D, 52, 0x09C50B11);
    Feed(d, 4, 0x09C50B11, 53, 0xE72EDCCA);
  }

  lemma CheckVector5()
    ensures Update(0xE72EDCCA, DIGITS[5..]) == Update(0x1CF96D7C, DIGITS[9..])
  {
    hide ByteStep, Update;
    var d := DIGITS;
    Feed(d, 5, 0xE72EDCCA, 54, 0xBECA8E79);
    Feed(d, 6, 0xBECA8E79, 55, 0xEDBD6815);
    Feed(d, 7, 0xEDBD6815, 56, 0x9F787F65);
    Feed(d, 8, 0x9F787F65, 57, 0x1CF96D7C);
  }

  /** The published check value: the checksum of the ASCII digits 1 to 9. */
  lemma CheckVector()
    ensures Crc32c(DIGITS) == 0xE3069283
  {
    hide ByteStep, Update;
    var d := DIGITS;
    assert d[0..] == d && d[9..] == [];
    CheckVector0();
    CheckVector5();
    UpdateNil(0x1CF96D7C);
  }

  /** The checksum of the letter a, whose byte has a high bit set. */
  lemma LetterVector()
    ensures Crc32c(LETTER) == 0xC1D04330
  {
    hide ByteStep, Update;
    var d := LETTER;
    assert d[0..] == d && d[1..] == [];
    Feed(d, 0, 0xFFFFFFFF, 97, 0x3E2FBCCF);
    UpdateNil(0x3E2FBCCF);
  }

  lemma AscendingVector0()
    ensures Update(0xFFFFFFFF, Ascending()[0..]) == Update(0x75D343C4, Ascending()[8..])
  {
    hide ByteStep, Update;
    var d := Ascending();
    Feed(d, 0, 0xFFFFFFFF, 0, 0xAD82ACAE);
    Feed(d, 1, 0xAD82ACAE, 1, 0xFCF50B2E);
    Feed(d, 2, 0xFCF50B2E, 2, 0x6D02B405);
    Feed(d, 3, 0x6D02B405, 3, 0x26CCE55C);
    Feed(d, 4, 0x26CCE55C, 4, 0xDBDA4EF9);
    Feed(d, 5, 0xDBDA4EF9, 5, 0xBEF67AEB);
    Feed(d, 6, 0xBEF67AEB, 6, 0x5CA612B3);
    Feed(d, 7, 0x5CA612B3, 7, 0x75D343C4);
  }

  lemma AscendingVector8()
    ensures Update(0x75D343C4, Ascending()[8..]) == Update(0x2636F714, Ascending()[16..])
  {
    hide ByteStep, Update;
    var d := Ascending();
    Feed(d, 8, 0x75D343C4, 8, 0x8EBB3A57);
    Feed(d, 9, 0x8EBB3A57, 9, 0xFDD3DECE);
    Feed(d, 10, 0xFDD3DECE, 10, 0x04EA6205);
    Feed(d, 11, 0x04EA6205, 11, 0xAC7C5545);
    Feed(d, 12, 0xAC7C5545, 12, 0x3965BA25);
    Feed(d, 13, 0x3965BA25, 13, 0xAA5DB3AB);
    Feed(d, 14, 0xAA5DB3AB, 14, 0x9710FC09);
    Feed(d, 15, 0x9710FC09, 15, 0x2636F714);
  }

  lemma AscendingVector16()
    ensures Update(0x2636F714, Ascending()[16..]) == Update(0xD643786A, Ascending()[24..])
  {
    hide ByteStep, Update;
    var d := Ascending();
    Feed(d, 16, 0x2636F714, 16, 0xC7BCA1E8);
    Feed(d, 17, 0xC7BCA1E8, 17, 0x8B1B0818);
    Feed(d, 18, 0x8B1B0818, 18, 0x6B693330);
    Feed(d, 19, 0x6B693330, 19, 0x33861419);
    Feed(d, 20, 0x33861419, 20, 0xBF1BCAC7);
    Feed(d, 21, 0xBF1BCAC7, 21, 0x32578A96);
    Feed(d, 22, 0x32578A96, 22, 0x82C46CF2);
    Feed(d, 23, 0x82C46CF2, 23, 0xD643786A);
  }

  lemma AscendingVector24()
    ensures Update(0xD643786A, Ascending()[24..]) == Update(0xB92286B1, Ascending()[32..])
  {
    hide ByteStep, Update;
    var d := Ascending();
    Feed(d, 24, 0xD643786A, 24, 0x90756782);
    Feed(d, 25, 0x90756782, 25, 0x0BB1224B);
    Feed(d, 26, 0x0BB1224B, 26, 0xA345E8F2);
    Feed(d, 27, 0xA345E8F2, 27, 0x9B21363E);
    Feed(d, 28, 0x9B21363E, 28, 0xC11DDF1F);
    Feed(d, 29, 0xC11DDF1F, 29, 0xE1FA6D28);
    Feed(d, 30, 0xE1FA6D28, 30, 0x16A35434);
    Feed(d, 31, 0x16A35434, 31, 0xB92286B1);
  }

  /** Appendix B.4 of RFC 3720: the 32 bytes 0x00 to 0x1F. */
  lemma AscendingVector()
    ensures Crc32c(Ascending()) == 0x46DD794E
  {
    hide ByteStep, Update;
    var d := Ascending();
    assert d[0..] == d && d[32..] == [];
    AscendingVector0();
    AscendingVector8();
    AscendingVector16();
    AscendingVector24();
    UpdateNil(0xB92286B1);
  }
}
