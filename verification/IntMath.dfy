/** The 64 x 64 to 128 bit multiplication by halves of base/intmath.hh. */
module IntMath {
  import opened Arith
  lemma ProductMonotone(x: nat, y: nat, m: nat, n: nat)
    requires x <= m && y <= n
    ensures x * y <= m * n
  {
    assert m * n == x * y + x * (n - y) + (m - x) * n;
  }

  lemma HalfProduct(x: nat, y: nat)
    requires x < 0x1_0000_0000 && y < 0x1_0000_0000
    ensures x * y <= 0xFFFF_FFFE_0000_0001
  {
    ProductMonotone(x, y, 0xFFFF_FFFF, 0xFFFF_FFFF);
  }

  /** (A * p + a) * (B * p + b) = (A * B) * p^2 + (A * b + a * B) * p + a * b */
  lemma ByHalves(A: nat, a: nat, B: nat, b: nat, p: nat)
    ensures (A * p + a) * (B * p + b) == A * B * (p * p) + (A * b + a * B) * p + a * b
  {
    var x := B * p + b;
    assert (A * p + a) * x == A * p * x + a * x;
    assert A * p * x == A * B * (p * p) + A * b * p;
    assert a * x == a * B * p + a * b;
  }

  lemma Fits(x: int)
    requires 0 <= x < TWO64
    ensures U64(x) == x
  {
  }

  lemma Halves(x: nat, y: nat, z: nat)
    ensures x / 2 + y / 2 + z / 2 + (x % 2 + y % 2 + z % 2) / 2 == (x + y + z) / 2
  {
    var q := x / 2 + y / 2 + z / 2;
    var r := x % 2 + y % 2 + z % 2;
    assert x + y + z == 2 * q + r;
  }

  lemma HalfAtMost(x: nat, m: nat)
    requires x <= 2 * m + 1
    ensures x / 2 <= m
  {
  }

  /** The sum of the three middle terms is halved term by term, so that no carry is lost. */
  lemma CarryFits(c1: nat, Ab: nat, aB: nat)
    requires c1 < 0x1_0000_0000 && Ab <= 0xFFFF_FFFE_0000_0001 && aB <= 0xFFFF_FFFE_0000_0001
    ensures U64(U64(U64(c1 / 2 + Ab / 2) + aB / 2) + (c1 % 2 + Ab % 2 + aB % 2) / 2) == (c1 + Ab + aB) / 2
  {
    HalfAtMost(c1, 0x7FFF_FFFF);
    HalfAtMost(Ab, 0x7FFF_FFFF_0000_0000);
    HalfAtMost(aB, 0x7FFF_FFFF_0000_0000);
    HalfAtMost(c1 % 2 + Ab % 2 + aB % 2, 1);
    Fits(c1 / 2 + Ab / 2);
    Fits(c1 / 2 + Ab / 2 + aB / 2);
    Fits(c1 / 2 + Ab / 2 + aB / 2 + (c1 % 2 + Ab % 2 + aB % 2) / 2);
    Halves(c1, Ab, aB);
  }

  /** From the partial products to the two words of the result. */
  lemma Assemble(ab: nat, mid: nat, AB: nat, full: nat)
    requires full == AB * TWO64 + mid * 0x1_0000_0000 + ab
    ensures full == (AB + (ab / 0x1_0000_0000 + mid) / 2 / 0x8000_0000) * TWO64
                    + full % TWO64
  {
    var s := ab / 0x1_0000_0000 + mid;
    assert s / 2 / 0x8000_0000 == s / 0x1_0000_0000;
    assert full == (AB + s / 0x1_0000_0000) * TWO64
                   + (s % 0x1_0000_0000) * 0x1_0000_0000 + ab % 0x1_0000_0000;
  }

  lemma HighFits(full: nat, high: nat, low: nat)
    requires full == high * TWO64 + low
    requires full <= 0xFFFF_FFFF_FFFF_FFFF * 0xFFFF_FFFF_FFFF_FFFF
    ensures high < TWO64
  {
  }

  /** The partial products fit into 64 bits and make up the whole product. */
  lemma PartialProducts(valA: nat, valB: nat, A: nat, a: nat, B: nat, b: nat)
    requires valA < TWO64 && valB < TWO64
    requires A == valA / 0x1_0000_0000 && a == valA % 0x1_0000_0000
    requires B == valB / 0x1_0000_0000 && b == valB % 0x1_0000_0000
    ensures U64(a * b) == a * b && U64(A * b) == A * b && U64(a * B) == a * B && U64(A * B) == A * B
    ensures U64(a * b) <= 0xFFFF_FFFE_0000_0001 && U64(A * b) <= 0xFFFF_FFFE_0000_0001 && U64(a * B) <= 0xFFFF_FFFE_0000_0001
    ensures valA * valB == U64(A * B) * TWO64 + (U64(A * b) + U64(a * B)) * 0x1_0000_0000 + U64(a * b)
  {
    HalfProduct(a, b);
    HalfProduct(A, b);
    HalfProduct(a, B);
    HalfProduct(A, B);
    Fits(a * b);
    Fits(A * b);
    Fits(a * B);
    Fits(A * B);
    ByHalves(A, a, B, b, 0x1_0000_0000);
  }

  lemma CarryOfLow(ab: nat)
    requires ab <= 0xFFFF_FFFE_0000_0001
    ensures ab / 0x1_0000_0000 < 0x1_0000_0000
  {
  }

  /** c2: what the lower terms carry into the high word. */
  function Carry(ab: nat, Ab: nat, aB: nat): nat {
    var c1 := ab / 0x1_0000_0000;
    var c2 := U64(U64(c1 / 2 + Ab / 2) + aB / 2);
    U64(c2 + (c1 % 2 + Ab % 2 + aB % 2) / 2) / 0x8000_0000
  }

  lemma CarryIs(ab: nat, Ab: nat, aB: nat)
    requires ab <= 0xFFFF_FFFE_0000_0001 && Ab <= 0xFFFF_FFFE_0000_0001 && aB <= 0xFFFF_FFFE_0000_0001
    ensures Carry(ab, Ab, aB) == (ab / 0x1_0000_0000 + (Ab + aB)) / 2 / 0x8000_0000
  {
    CarryOfLow(ab);
    CarryFits(ab / 0x1_0000_0000, Ab, aB);
  }

  lemma Finish(ab: nat, Ab: nat, aB: nat, AB: nat, full: nat)
    requires ab <= 0xFFFF_FFFE_0000_0001 && Ab <= 0xFFFF_FFFE_0000_0001 && aB <= 0xFFFF_FFFE_0000_0001
    requires full == AB * TWO64 + (Ab + aB) * 0x1_0000_0000 + ab
    requires full <= 0xFFFF_FFFF_FFFF_FFFF * 0xFFFF_FFFF_FFFF_FFFF
    ensures U64(AB + Carry(ab, Ab, aB)) * TWO64 + U64(full) == full
  {
    CarryIs(ab, Ab, aB);
    Assemble(ab, Ab + aB, AB, full);
    HighFits(full, AB + Carry(ab, Ab, aB), U64(full));
    Fits(AB + Carry(ab, Ab, aB));
  }

  method MulUnsignedManual(valA: nat, valB: nat) returns (high: nat, low: nat)
    requires valA < TWO64 && valB < TWO64
    ensures high < TWO64 && low < TWO64
    ensures high * TWO64 + low == valA * valB
  {
    low := U64(valA * valB);
    var A, a := valA / 0x1_0000_0000, valA % 0x1_0000_0000;
    var B, b := valB / 0x1_0000_0000, valB % 0x1_0000_0000;
    PartialProducts(valA, valB, A, a, B, b);
    ProductMonotone(valA, valB, 0xFFFF_FFFF_FFFF_FFFF, 0xFFFF_FFFF_FFFF_FFFF);
    var ab, Ab, aB, AB := U64(a * b), U64(A * b), U64(a * B), U64(A * B);
    high := HighWord(ab, Ab, aB, AB, valA * valB);
  }

  /** The carries between place values. */
  method HighWord(ab: nat, Ab: nat, aB: nat, AB: nat, ghost full: nat) returns (high: nat)
    requires ab <= 0xFFFF_FFFE_0000_0001 && Ab <= 0xFFFF_FFFE_0000_0001 && aB <= 0xFFFF_FFFE_0000_0001
    requires full == AB * TWO64 + (Ab + aB) * 0x1_0000_0000 + ab
    requires full <= 0xFFFF_FFFF_FFFF_FFFF * 0xFFFF_FFFF_FFFF_FFFF
    ensures high < TWO64 && high * TWO64 + U64(full) == full
  {
    hide Carry;
    var c2 := CarryOut(ab, Ab, aB);
    Finish(ab, Ab, aB, AB, full);
    high := U64(AB + c2);
  }

  method CarryOut(ab: nat, Ab: nat, aB: nat) returns (c2: nat)
    ensures c2 == Carry(ab, Ab, aB)
  {
    var c1 := ab / 0x1_0000_0000;
    c2 := U64(U64(c1 / 2 + Ab / 2) + aB / 2);
    c2 := U64(c2 + (c1 % 2 + Ab % 2 + aB % 2) / 2);
    c2 := c2 / 0x8000_0000;
  }

  function ToSigned(x: nat): int {
    if x < 0x8000_0000_0000_0000 then x else x - TWO64
  }

  predicate Signed64(x: int) {
    -0x8000_0000_0000_0000 <= x < 0x8000_0000_0000_0000
  }

  lemma ProductBound(a: int, b: int)
    requires Signed64(a) && Signed64(b)
    ensures -0x4000_0000_0000_0000_0000_0000_0000_0000 <= a * b <= 0x4000_0000_0000_0000_0000_0000_0000_0000
  {
    var x: nat, y: nat := if a < 0 then -a else a, if b < 0 then -b else b;
    ProductMonotone(x, y, 0x8000_0000_0000_0000, 0x8000_0000_0000_0000);
    assert a * b == x * y || a * b == -(x * y);
  }

  /** (a + s)(b + t) where s and t are 0 or 2^64. */
  lemma Expand(a: int, b: int, s: int, t: int)
    ensures (a + s) * (b + t) == a * b + a * t + s * b + s * t
  {
  }

  /** The correction that signed operands need in the high word, up to a multiple of 2^64. */
  lemma SignCorrection(a: int, b: int, uHigh: nat, uLow: nat) returns (exact: int)
    requires Signed64(a) && Signed64(b) && uHigh * TWO64 + uLow == U64(a) * U64(b)
    ensures exact * TWO64 + uLow == a * b
    ensures exact == uHigh - (if a < 0 then b else 0) - (if b < 0 then a else 0)
                     - (if a < 0 && b < 0 then TWO64 else 0)
  {
    var s := if a < 0 then TWO64 else 0;
    var t := if b < 0 then TWO64 else 0;
    assert U64(a) == a + s && U64(b) == b + t;
    Expand(a, b, s, t);
    exact := uHigh - (if a < 0 then b else 0) - (if b < 0 then a else 0)
             - (if a < 0 && b < 0 then TWO64 else 0);
  }

  lemma HighIsSigned(exact: int, low: nat, product: int)
    requires exact * TWO64 + low == product && low < TWO64
    requires -0x4000_0000_0000_0000_0000_0000_0000_0000 <= product <= 0x4000_0000_0000_0000_0000_0000_0000_0000
    ensures Signed64(exact) && ToSigned(U64(exact)) == exact
  {
  }

  /** Two subtractions modulo 2^64 are one. */
  lemma Corrected(a: int, b: int, start: int, high: int, exact: int)
    requires high == var h := if a < 0 then U64(start - b) else start; if b < 0 then U64(h - a) else h
    requires exact == start - (if a < 0 then b else 0) - (if b < 0 then a else 0)
                      - (if a < 0 && b < 0 then TWO64 else 0)
    requires 0 <= start < TWO64
    ensures high == U64(exact)
  {
  }

  /** high is the signed word and low the unsigned one of the two's-complement product. */
  method MulSignedManual(valA: int, valB: int) returns (high: int, low: nat)
    requires Signed64(valA) && Signed64(valB)
    ensures Signed64(high) && low < TWO64
    ensures high * TWO64 + low == valA * valB
  {
    var uHigh, uLow := MulUnsignedManual(U64(valA), U64(valB));
    ghost var start := uHigh;
    ghost var exact := SignCorrection(valA, valB, uHigh, uLow);
    ProductBound(valA, valB);
    HighIsSigned(exact, uLow, valA * valB);
    if valA < 0 {
      uHigh := U64(uHigh - valB);
    }
    if valB < 0 {
      uHigh := U64(uHigh - valA);
    }
    Corrected(valA, valB, start, uHigh, exact);
    high, low := ToSigned(uHigh), uLow;
  }
}
