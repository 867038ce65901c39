/** crc32 of base/crc.hh and the bit reversal of base/bitfield.hh it rests on. */
module Crc {
  import opened Words

  // reverseBitsLookUpTable of base/bitfield.cc, sixteen entries a row, in four quarters.

  function Quarter0(r: nat): seq<nat> {
    if r == 0 then [0x00, 0x80, 0x40, 0xC0, 0x20, 0xA0, 0x60, 0xE0, 0x10, 0x90, 0x50, 0xD0, 0x30, 0xB0, 0x70, 0xF0]
    else if r == 1 then [0x08, 0x88, 0x48, 0xC8, 0x28, 0xA8, 0x68, 0xE8, 0x18, 0x98, 0x58, 0xD8, 0x38, 0xB8, 0x78, 0xF8]
    else if r == 2 then [0x04, 0x84, 0x44, 0xC4, 0x24, 0xA4, 0x64, 0xE4, 0x14, 0x94, 0x54, 0xD4, 0x34, 0xB4, 0x74, 0xF4]
    else [0x0C, 0x8C, 0x4C, 0xCC, 0x2C, 0xAC, 0x6C, 0xEC, 0x1C, 0x9C, 0x5C, 0xDC, 0x3C, 0xBC, 0x7C, 0xFC]
  }

  function Quarter1(r: nat): seq<nat> {
    if r == 0 then [0x02, 0x82, 0x42, 0xC2, 0x22, 0xA2, 0x62, 0xE2, 0x12, 0x92, 0x52, 0xD2, 0x32, 0xB2, 0x72, 0xF2]
    else if r == 1 then [0x0A, 0x8A, 0x4A, 0xCA, 0x2A, 0xAA, 0x6A, 0xEA, 0x1A, 0x9A, 0x5A, 0xDA, 0x3A, 0xBA, 0x7A, 0xFA]
    else if r == 2 then [0x06, 0x86, 0x46, 0xC6, 0x26, 0xA6, 0x66, 0xE6, 0x16, 0x96, 0x56, 0xD6, 0x36, 0xB6, 0x76, 0xF6]
    else [0x0E, 0x8E, 0x4E, 0xCE, 0x2E, 0xAE, 0x6E, 0xEE, 0x1E, 0x9E, 0x5E, 0xDE, 0x3E, 0xBE, 0x7E, 0xFE]
  }

  function Quarter2(r: nat): seq<nat> {
    if r == 0 then [0x01, 0x81, 0x41, 0xC1, 0x21, 0xA1, 0x61, 0xE1, 0x11, 0x91, 0x51, 0xD1, 0x31, 0xB1, 0x71, 0xF1]
    else if r == 1 then [0x09, 0x89, 0x49, 0xC9, 0x29, 0xA9, 0x69, 0xE9, 0x19, 0x99, 0x59, 0xD9, 0x39, 0xB9, 0x79, 0xF9]
    else if r == 2 then [0x05, 0x85, 0x45, 0xC5, 0x25, 0xA5, 0x65, 0xE5, 0x15, 0x95, 0x55, 0xD5, 0x35, 0xB5, 0x75, 0xF5]
    else [0x0D, 0x8D, 0x4D, 0xCD, 0x2D, 0xAD, 0x6D, 0xED, 0x1D, 0x9D, 0x5D, 0xDD, 0x3D, 0xBD, 0x7D, 0xFD]
  }

  function Quarter3(r: nat): seq<nat> {
    if r == 0 then [0x03, 0x83, 0x43, 0xC3, 0x23, 0xA3, 0x63, 0xE3, 0x13, 0x93, 0x53, 0xD3, 0x33, 0xB3, 0x73, 0xF3]
    else if r == 1 then [0x0B, 0x8B, 0x4B, 0xCB, 0x2B, 0xAB, 0x6B, 0xEB, 0x1B, 0x9B, 0x5B, 0xDB, 0x3B, 0xBB, 0x7B, 0xFB]
    else if r == 2 then [0x07, 0x87, 0x47, 0xC7, 0x27, 0xA7, 0x67, 0xE7, 0x17, 0x97, 0x57, 0xD7, 0x37, 0xB7, 0x77, 0xF7]
    else [0x0F, 0x8F, 0x4F, 0xCF, 0x2F, 0xAF, 0x6F, 0xEF, 0x1F, 0x9F, 0x5F, 0xDF, 0x3F, 0xBF, 0x7F, 0xFF]
  }

  function TableRow(r: nat): seq<nat>
    requires r < 16
  {
    if r < 4 then Quarter0(r) else if r < 8 then Quarter1(r - 4) else if r < 12 then Quarter2(r - 8) else Quarter3(r - 12)
  }

  function Table(i: nat): nat
    requires i < 256
  {
    TableRow(i / 16)[i % 16]
  }

  function ReversedNibble(x: nat): nat {
    x % 2 * 8 + x / 2 % 2 * 4 + x / 4 % 2 * 2 + x / 8 % 2
  }

  function FirstRowPlus(k: nat): seq<nat> {
    [0x00 + k, 0x80 + k, 0x40 + k, 0xC0 + k, 0x20 + k, 0xA0 + k, 0x60 + k, 0xE0 + k,
     0x10 + k, 0x90 + k, 0x50 + k, 0xD0 + k, 0x30 + k, 0xB0 + k, 0x70 + k, 0xF0 + k]
  }

  /** The reversal of a two-bit number, as the upper half of a nibble. */
  function ReversedPair(j: nat): nat {
    j % 2 * 8 + j / 2 * 4
  }

  function QuarterBase(q: nat): nat {
    q % 2 * 2 + q / 2
  }

  lemma NibbleOfPairs(q: nat, j: nat)
    requires q < 4 && j < 4
    ensures ReversedNibble(4 * q + j) == QuarterBase(q) + ReversedPair(j)
  {
    var x := 4 * q + j;
    assert x / 2 == 2 * q + j / 2 && x / 4 == q && x / 8 == q / 2;
  }

  lemma Quarter0Is(r: nat)
    requires r < 4
    ensures Quarter0(r) == FirstRowPlus(0 + ReversedPair(r))
  {
  }

  lemma Quarter1Is(r: nat)
    requires r < 4
    ensures Quarter1(r) == FirstRowPlus(2 + ReversedPair(r))
  {
  }

  lemma Quarter2Is(r: nat)
    requires r < 4
    ensures Quarter2(r) == FirstRowPlus(1 + ReversedPair(r))
  {
  }

  lemma Quarter3Is(r: nat)
    requires r < 4
    ensures Quarter3(r) == FirstRowPlus(3 + ReversedPair(r))
  {
  }

  /** Every row is the first one plus the reversal of the row number. */
  lemma RowIsFirstRowPlus(r: nat)
    requires r < 16
    ensures TableRow(r) == FirstRowPlus(ReversedNibble(r))
  {
    hide TableRow, FirstRowPlus, ReversedNibble, QuarterBase, ReversedPair;
    NibbleOfPairs(r / 4, r % 4);
    RowInQuarter(r / 4, r % 4, ReversedNibble(r));
  }

  lemma RowInQuarter(q: nat, j: nat, k: nat)
    requires q < 4 && j < 4 && k == QuarterBase(q) + ReversedPair(j)
    ensures TableRow(4 * q + j) == FirstRowPlus(k)
  {
    hide Quarter0, Quarter1, Quarter2, Quarter3, FirstRowPlus, ReversedPair;
    if q == 0 {
      Quarter0Is(j);
    } else if q == 1 {
      Quarter1Is(j);
    } else if q == 2 {
      Quarter2Is(j);
    } else {
      Quarter3Is(j);
    }
  }

  lemma FirstRowAt(q: nat, j: nat, k: nat)
    requires q < 4 && j < 4
    ensures FirstRowPlus(k)[4 * q + j] == 16 * (QuarterBase(q) + ReversedPair(j)) + k
  {
    hide FirstRowPlus, ReversedPair;
    if q == 0 {
      FirstFour(j, k);
    } else if q == 1 {
      SecondFour(j, k);
    } else if q == 2 {
      ThirdFour(j, k);
    } else {
      LastFour(j, k);
    }
  }

  lemma FirstFour(j: nat, k: nat)
    requires j < 4
    ensures FirstRowPlus(k)[0 + j] == 16 * (0 + ReversedPair(j)) + k
  {
  }

  lemma SecondFour(j: nat, k: nat)
    requires j < 4
    ensures FirstRowPlus(k)[4 + j] == 16 * (2 + ReversedPair(j)) + k
  {
  }

  lemma ThirdFour(j: nat, k: nat)
    requires j < 4
    ensures FirstRowPlus(k)[8 + j] == 16 * (1 + ReversedPair(j)) + k
  {
  }

  lemma LastFour(j: nat, k: nat)
    requires j < 4
    ensures FirstRowPlus(k)[12 + j] == 16 * (3 + ReversedPair(j)) + k
  {
  }

  lemma FirstRowIs(c: nat, k: nat)
    requires c < 16
    ensures FirstRowPlus(k)[c] == 16 * ReversedNibble(c) + k
  {
    hide FirstRowPlus, ReversedNibble;
    NibbleOfPairs(c / 4, c % 4);
    FirstRowAt(c / 4, c % 4, k);
  }

  function Rev(w: Word): (r: Word)
    ensures |r| == |w| && forall i :: 0 <= i < |w| ==> r[i] == w[|w| - 1 - i]
  {
    seq(|w|, i requires 0 <= i < |w| => w[|w| - 1 - i])
  }

  lemma NibbleValue(w: Word)
    requires |w| == 4
    ensures Val(w) == Bit(w[0]) + 2 * Bit(w[1]) + 4 * Bit(w[2]) + 8 * Bit(w[3])
  {
    assert Val(w) == Bit(w[0]) + 2 * Val(w[1..]);
    assert Val(w[1..]) == Bit(w[1]) + 2 * Val(w[2..]);
    assert Val(w[2..]) == Bit(w[2]) + 2 * Val(w[3..]);
    assert Val(w[3..]) == Bit(w[3]) + 2 * Val(w[4..]);
  }

  lemma NibbleReverses(w: Word)
    requires |w| == 4
    ensures ReversedNibble(Val(w)) == Val(Rev(w))
  {
    NibbleValue(w);
    NibbleValue(Rev(w));
    BitsBack(Bit(w[0]), Bit(w[1]), Bit(w[2]), Bit(w[3]));
  }

  lemma BitsBack(a: nat, b: nat, c: nat, d: nat)
    requires a < 2 && b < 2 && c < 2 && d < 2
    ensures ReversedNibble(a + 2 * b + 4 * c + 8 * d) == d + 2 * c + 4 * b + 8 * a
  {
    var x := a + 2 * b + 4 * c + 8 * d;
    assert x / 2 == b + 2 * c + 4 * d && x / 4 == c + 2 * d && x / 8 == d;
  }

  /** The table holds the reversal of every byte. */
  lemma TableReverses(b: Word)
    requires |b| == 8
    ensures Val(b) < 256 && Table(Val(b)) == Val(Rev(b))
  {
    hide Val, TableRow, FirstRowPlus, ReversedNibble;
    var lo, hi := b[..4], b[4..];
    assert b == lo + hi;
    ValAppend(lo, hi);
    assert Pow2(4) == 16;
    ValBound(lo);
    ValBound(hi);
    var i := Val(b);
    assert i / 16 == Val(hi) && i % 16 == Val(lo);
    RowIsFirstRowPlus(Val(hi));
    FirstRowIs(Val(lo), ReversedNibble(Val(hi)));
    NibbleReverses(lo);
    NibbleReverses(hi);
    assert Rev(b) == Rev(hi) + Rev(lo);
    ValAppend(Rev(hi), Rev(lo));
  }

  /** reverseBits for a 32-bit value, byte by byte through the table. */
  method ReverseBits(value: Word) returns (output: Word)
    requires |value| == 32
    ensures output == Rev(value)
  {
    output := Zeros(32);
    var val := value;
    for byte := 0 to 4
      invariant |output| == |val| == 32
      invariant output == Rev(value[..8 * byte]) + Zeros(32 - 8 * byte)
      invariant val == value[8 * byte..] + Zeros(8 * byte)
    {
      var low := And(val, Mask(8, 32));
      TableStep(value, byte, val, output);
      output := Or(ShiftLeft(output, 8), Bits(Table(Val(low[..8])), 32));
      val := ShiftRight(val, 8);
    }
    assert value[..32] == value;
  }

  lemma BitsOfByte(w: Word)
    requires |w| == 8
    ensures Bits(Val(w), 32) == w + Zeros(24)
  {
    hide Val, Bits, Pow2;
    ValAppend(w, Zeros(24));
    ValZeros(24);
    BitsOfVal(w + Zeros(24));
  }

  lemma TableStep(value: Word, byte: nat, val: Word, output: Word)
    requires |value| == |val| == |output| == 32 && byte < 4
    requires output == Rev(value[..8 * byte]) + Zeros(32 - 8 * byte)
    requires val == value[8 * byte..] + Zeros(8 * byte)
    ensures |And(val, Mask(8, 32))[..8]| == 8 && Val(And(val, Mask(8, 32))[..8]) < 256
    ensures Or(ShiftLeft(output, 8), Bits(Table(Val(And(val, Mask(8, 32))[..8])), 32))
            == Rev(value[..8 * byte + 8]) + Zeros(24 - 8 * byte)
  {
    hide Val, Bits, Table;
    var low := And(val, Mask(8, 32))[..8];
    var done := value[..8 * byte];
    assert low == value[8 * byte..8 * byte + 8];
    TableReverses(low);
    BitsOfByte(Rev(low));
    assert value[..8 * byte + 8] == done + low;
    OrLow(Rev(low), Rev(done), Zeros(24 - 8 * byte), output);
    assert Rev(done + low) == Rev(low) + Rev(done);
  }

  /** Shifting up by a byte and OR-ing a byte in below. */
  lemma OrLow(low: Word, done: Word, rest: Word, output: Word)
    requires |low| == 8 && |done| + |rest| == 24 && rest == Zeros(|rest|) && |output| == 32
    requires output == done + Zeros(32 - |done|)
    ensures Or(ShiftLeft(output, 8), low + Zeros(24)) == low + done + rest
  {
    forall i | 0 <= i < 32
      ensures Or(ShiftLeft(output, 8), low + Zeros(24))[i] == (low + done + rest)[i]
    {
      if i >= 8 {
        assert ShiftLeft(output, 8)[i] == output[i - 8];
      }
    }
  }

  // crc32

  /** One turn of the inner loop: the polynomial is subtracted when the top bits of crc and byte differ. */
  function Shifted(crc: Word, byte: Word, poly: Word): (r: Word)
    requires |crc| == |byte| == |poly| == 32
    ensures |r| == 32
  {
    if Xor(crc, byte)[31] then Xor(ShiftLeft(crc, 1), poly) else ShiftLeft(crc, 1)
  }

  /** What the inner loop makes of crc after k turns. */
  function AfterBits(crc: Word, byte: Word, poly: Word, k: nat): (r: Word)
    requires |crc| == |byte| == |poly| == 32 && k <= 32
    ensures |r| == 32
  {
    if k == 0 then crc else Shifted(AfterBits(crc, byte, poly, k - 1), ShiftLeft(byte, k - 1), poly)
  }

  function Extended(b: Word): Word
    requires |b| == 8
  {
    b + Zeros(24)
  }

  /** The outer loop, on the reversed checksum. */
  function AfterBytes(crc: Word, data: seq<Word>, poly: Word): (r: Word)
    requires |crc| == |poly| == 32 && forall i :: 0 <= i < |data| ==> |data[i]| == 8
    ensures |r| == 32
  {
    if data == [] then crc
    else
      var n := |data| - 1;
      AfterBits(AfterBytes(crc, data[..n], poly), Rev(Extended(data[n])), poly, 8)
  }

  function Crc32(data: seq<Word>, crc: Word, poly: Word): (r: Word)
    requires |crc| == |poly| == 32 && forall i :: 0 <= i < |data| ==> |data[i]| == 8
    ensures |r| == 32
  {
    Rev(AfterBytes(Rev(crc), data, poly))
  }

  /** The inner loop. */
  method ShiftByteIn(before: Word, reversed: Word, poly: Word) returns (crc: Word)
    requires |before| == |reversed| == |poly| == 32
    ensures crc == AfterBits(before, reversed, poly, 8)
  {
    crc := before;
    var byte := reversed;
    assert ShiftLeft(reversed, 0) == reversed;
    for j := 0 to 8
      invariant |crc| == 32 && byte == ShiftLeft(reversed, j) && crc == AfterBits(before, reversed, poly, j)
    {
      if Xor(crc, byte)[31] {
        crc := Xor(ShiftLeft(crc, 1), poly);
      } else {
        crc := ShiftLeft(crc, 1);
      }
      byte := ShiftLeft(byte, 1);
      assert byte == ShiftLeft(reversed, j + 1);
    }
  }

  method ComputeCrc32(data: seq<Word>, init: Word, poly: Word) returns (r: Word)
    requires |init| == |poly| == 32 && forall i :: 0 <= i < |data| ==> |data[i]| == 8
    ensures r == Crc32(data, init, poly)
  {
    var crc := ReverseBits(init);
    for i := 0 to |data|
      invariant crc == AfterBytes(Rev(init), data[..i], poly)
    {
      assert data[..i + 1][..i] == data[..i];
      var byte := ReverseBits(Extended(data[i]));
      crc := ShiftByteIn(crc, byte, poly);
    }
    assert data[..|data|] == data;
    r := ReverseBits(crc);
  }

  lemma RevInvolution(w: Word)
    ensures Rev(Rev(w)) == w
  {
  }

  lemma RevLinear(a: Word, b: Word)
    requires |a| == |b|
    ensures Rev(Xor(a, b)) == Xor(Rev(a), Rev(b))
  {
  }

  // The reference: the same checksum from the least significant bit, without any reversal.

  function ReflectedBit(crc: Word, bit: bool, rpoly: Word): (r: Word)
    requires |crc| == |rpoly| == 32
    ensures |r| == 32
  {
    if crc[0] != bit then Xor(ShiftRight(crc, 1), rpoly) else ShiftRight(crc, 1)
  }

  function ReflectedBits(crc: Word, b: Word, rpoly: Word, k: nat): (r: Word)
    requires |crc| == |rpoly| == 32 && k <= |b|
    ensures |r| == 32
  {
    if k == 0 then crc else ReflectedBit(ReflectedBits(crc, b, rpoly, k - 1), b[k - 1], rpoly)
  }

  function Reflected(data: seq<Word>, crc: Word, rpoly: Word): (r: Word)
    requires |crc| == |rpoly| == 32 && forall i :: 0 <= i < |data| ==> |data[i]| == 8
    ensures |r| == 32
  {
    if data == [] then crc
    else
      var n := |data| - 1;
      ReflectedBits(Reflected(data[..n], crc, rpoly), data[n], rpoly, 8)
  }

  lemma ShiftReflects(crc: Word, byte: Word, poly: Word, bit: bool)
    requires |crc| == |byte| == |poly| == 32 && byte[31] == bit
    ensures Rev(Shifted(crc, byte, poly)) == ReflectedBit(Rev(crc), bit, Rev(poly))
  {
    assert Rev(ShiftLeft(crc, 1)) == ShiftRight(Rev(crc), 1);
    RevLinear(ShiftLeft(crc, 1), poly);
  }

  lemma {:induction false} BitsReflect(crc: Word, b: Word, poly: Word, k: nat)
    requires |crc| == |poly| == 32 && |b| == 8 && k <= 8
    ensures Rev(AfterBits(crc, Rev(Extended(b)), poly, k)) == ReflectedBits(Rev(crc), b, Rev(poly), k)
  {
    if k > 0 {
      BitsReflect(crc, b, poly, k - 1);
      var byte := Rev(Extended(b));
      assert ShiftLeft(byte, k - 1)[31] == byte[32 - k] == Extended(b)[k - 1];
      ShiftReflects(AfterBits(crc, byte, poly, k - 1), ShiftLeft(byte, k - 1), poly, b[k - 1]);
    }
  }

  lemma {:induction false} BytesReflect(crc: Word, data: seq<Word>, poly: Word)
    requires |crc| == |poly| == 32 && forall i :: 0 <= i < |data| ==> |data[i]| == 8
    ensures Rev(AfterBytes(crc, data, poly)) == Reflected(data, Rev(crc), Rev(poly))
  {
    if data != [] {
      var n := |data| - 1;
      BytesReflect(crc, data[..n], poly);
      BitsReflect(AfterBytes(crc, data[..n], poly), data[n], poly, 8);
    }
  }

  /** crc32 by reversing input, start value and output is the checksum by the reversed polynomial. */
  lemma CrcIsReflected(data: seq<Word>, crc: Word, poly: Word)
    requires |crc| == |poly| == 32 && forall i :: 0 <= i < |data| ==> |data[i]| == 8
    ensures Crc32(data, crc, poly) == Reflected(data, crc, Rev(poly))
  {
    BytesReflect(Rev(crc), data, poly);
    RevInvolution(crc);
  }

  lemma {:induction false} ReflectedAppend(d1: seq<Word>, d2: seq<Word>, crc: Word, rpoly: Word)
    requires |crc| == |rpoly| == 32 && forall i :: 0 <= i < |d1| ==> |d1[i]| == 8
    requires forall i :: 0 <= i < |d2| ==> |d2[i]| == 8
    ensures Reflected(d1 + d2, crc, rpoly) == Reflected(d2, Reflected(d1, crc, rpoly), rpoly)
  {
    if d2 == [] {
      assert d1 + d2 == d1;
    } else {
      var n := |d2| - 1;
      ReflectedAppend(d1, d2[..n], crc, rpoly);
      assert (d1 + d2)[..|d1| + n] == d1 + d2[..n];
    }
  }

  /** A checksum can be continued where it was left off. */
  lemma CrcIsIncremental(d1: seq<Word>, d2: seq<Word>, crc: Word, poly: Word)
    requires |crc| == |poly| == 32 && forall i :: 0 <= i < |d1| ==> |d1[i]| == 8
    requires forall i :: 0 <= i < |d2| ==> |d2[i]| == 8
    ensures Crc32(d1 + d2, crc, poly) == Crc32(d2, Crc32(d1, crc, poly), poly)
  {
    CrcIsReflected(d1 + d2, crc, poly);
    CrcIsReflected(d1, crc, poly);
    CrcIsReflected(d2, Crc32(d1, crc, poly), poly);
    ReflectedAppend(d1, d2, crc, Rev(poly));
  }

  // Linearity over GF(2).

  lemma XorSwap(a: Word, b: Word, c: Word, d: Word)
    requires |a| == |b| == |c| == |d|
    ensures Xor(Xor(a, b), Xor(c, d)) == Xor(Xor(a, c), Xor(b, d))
  {
  }

  function Gated(on: bool, p: Word): Word {
    if on then p else Zeros(|p|)
  }

  lemma BitAsXor(crc: Word, bit: bool, p: Word)
    requires |crc| == |p| == 32
    ensures ReflectedBit(crc, bit, p) == Xor(ShiftRight(crc, 1), Gated(crc[0] != bit, p))
  {
  }

  lemma ShiftIsLinear(a: Word, b: Word)
    requires |a| == |b| == 32
    ensures |ShiftRight(a, 1)| == |ShiftRight(b, 1)| == 32
    ensures ShiftRight(Xor(a, b), 1) == Xor(ShiftRight(a, 1), ShiftRight(b, 1))
  {
    var x, y := ShiftRight(Xor(a, b), 1), Xor(ShiftRight(a, 1), ShiftRight(b, 1));
    forall i | 0 <= i < 32
      ensures x[i] == y[i]
    {
    }
  }

  lemma GateIsLinear(x: bool, y: bool, p: Word)
    requires |p| == 32
    ensures |Gated(x, p)| == |Gated(y, p)| == 32 && Gated(x != y, p) == Xor(Gated(x, p), Gated(y, p))
  {
    var g := Xor(Gated(x, p), Gated(y, p));
    forall i | 0 <= i < 32
      ensures Gated(x != y, p)[i] == g[i]
    {
    }
  }

  lemma BitLinear(c1: Word, c2: Word, b1: bool, b2: bool, p: Word)
    requires |c1| == |c2| == |p| == 32
    ensures ReflectedBit(Xor(c1, c2), b1 != b2, p) == Xor(ReflectedBit(c1, b1, p), ReflectedBit(c2, b2, p))
  {
    BitAsXor(Xor(c1, c2), b1 != b2, p);
    BitAsXor(c1, b1, p);
    BitAsXor(c2, b2, p);
    var g1, g2 := c1[0] != b1, c2[0] != b2;
    assert Xor(c1, c2)[0] == (c1[0] != c2[0]);
    hide Xor, ShiftRight, Gated, ReflectedBit;
    ShiftIsLinear(c1, c2);
    GateIsLinear(g1, g2, p);
    XorSwap(ShiftRight(c1, 1), ShiftRight(c2, 1), Gated(g1, p), Gated(g2, p));
  }

  lemma {:induction false} BitsLinear(c1: Word, c2: Word, b1: Word, b2: Word, p: Word, k: nat)
    requires |c1| == |c2| == |p| == 32 && |b1| == |b2| && k <= |b1|
    ensures ReflectedBits(Xor(c1, c2), Xor(b1, b2), p, k) == Xor(ReflectedBits(c1, b1, p, k), ReflectedBits(c2, b2, p, k))
  {
    if k > 0 {
      BitsLinear(c1, c2, b1, b2, p, k - 1);
      BitLinear(ReflectedBits(c1, b1, p, k - 1), ReflectedBits(c2, b2, p, k - 1), b1[k - 1], b2[k - 1], p);
    }
  }

  function XorData(d1: seq<Word>, d2: seq<Word>): (d: seq<Word>)
    requires |d1| == |d2| && forall i :: 0 <= i < |d1| ==> |d1[i]| == |d2[i]|
    ensures |d| == |d1| && forall i :: 0 <= i < |d| ==> d[i] == Xor(d1[i], d2[i])
  {
    seq(|d1|, i requires 0 <= i < |d1| => Xor(d1[i], d2[i]))
  }

  lemma {:induction false} ReflectedLinear(d1: seq<Word>, d2: seq<Word>, c1: Word, c2: Word, p: Word)
    requires |c1| == |c2| == |p| == 32 && |d1| == |d2|
    requires forall i :: 0 <= i < |d1| ==> |d1[i]| == |d2[i]| == 8
    ensures Reflected(XorData(d1, d2), Xor(c1, c2), p) == Xor(Reflected(d1, c1, p), Reflected(d2, c2, p))
  {
    if d1 != [] {
      var n := |d1| - 1;
      ReflectedLinear(d1[..n], d2[..n], c1, c2, p);
      assert XorData(d1, d2)[..n] == XorData(d1[..n], d2[..n]);
      BitsLinear(Reflected(d1[..n], c1, p), Reflected(d2[..n], c2, p), d1[n], d2[n], p, 8);
    }
  }

  lemma CrcIsLinear(d1: seq<Word>, d2: seq<Word>, c1: Word, c2: Word, poly: Word)
    requires |c1| == |c2| == |poly| == 32 && |d1| == |d2|
    requires forall i :: 0 <= i < |d1| ==> |d1[i]| == |d2[i]| == 8
    ensures Crc32(XorData(d1, d2), Xor(c1, c2), poly) == Xor(Crc32(d1, c1, poly), Crc32(d2, c2, poly))
  {
    CrcIsReflected(XorData(d1, d2), Xor(c1, c2), poly);
    CrcIsReflected(d1, c1, poly);
    CrcIsReflected(d2, c2, poly);
    ReflectedLinear(d1, d2, c1, c2, Rev(poly));
  }
}
