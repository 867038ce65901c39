/**
 What crc32 of base/crc.hh computes: the remainder of the message, as a polynomial over GF(2), in the
 division by x^32 plus the polynomial.  A word is the polynomial whose coefficient of x^i is its bit i.
 */
module CrcDivision {
  import opened Crc
  import opened Words

  function Scaled(on: bool, p: Word): (r: Word)
    ensures |r| == |p|
  {
    if on then p else Zeros(|p|)
  }

  /** The product of two polynomials, by the coefficients of the second. */
  function Product(p: Word, q: Word): (r: Word)
    ensures |r| == |p| + |q|
  {
    if q == [] then Zeros(|p|)
    else Xor(Scaled(q[0], p) + Zeros(|q|), [false] + Product(p, q[1..]))
  }

  /** The divisor: x^32 and the polynomial. */
  function Divisor(poly: Word): Word {
    poly + [true]
  }

  /** The message as a polynomial: its first bit, the lowest of the first byte, is the highest coefficient. */
  function Message(data: seq<Word>): (m: Word)
    requires forall i :: 0 <= i < |data| ==> |data[i]| == 8
    ensures |m| == 8 * |data|
  {
    if data == [] then [] else Rev(data[|data| - 1]) + Message(data[..|data| - 1])
  }

  /** The message times x^32, with the start value added to its first 32 bits. */
  function Dividend(m: Word, c: Word): (d: Word)
    requires |c| == 32
    ensures |d| == |m| + 32
  {
    Xor(Zeros(32) + m, Zeros(|m|) + c)
  }

  /** dividend == divisor * q + r, with r of degree below 32. */
  predicate Divides(m: Word, c: Word, poly: Word, q: Word, r: Word) {
    && |c| == |poly| == |r| == 32 && |q| == |m|
    && Dividend(m, c) + [false] == Xor(Product(Divisor(poly), q), r + Zeros(|m| + 1))
  }

  lemma NothingDivides(c: Word, poly: Word)
    requires |c| == |poly| == 32
    ensures Divides([], c, poly, [], c)
  {
    assert Dividend([], c) == c;
    assert Xor(Zeros(33), c + Zeros(1)) == c + [false];
  }

  /** x * r + b * x^32 == g * divisor + (the shifted r), where g is the coefficient that is subtracted. */
  lemma BitStep(r: Word, byte: Word, poly: Word, b: bool)
    requires |r| == |byte| == |poly| == 32 && byte[31] == b
    ensures Xor([false] + r, Zeros(32) + [b]) == Xor(Scaled(r[31] != b, Divisor(poly)), Shifted(r, byte, poly) + [false])
  {
    var x, y := Xor([false] + r, Zeros(32) + [b]), Xor(Scaled(r[31] != b, Divisor(poly)), Shifted(r, byte, poly) + [false]);
    forall i | 0 <= i < 33
      ensures x[i] == y[i]
    {
      if 0 < i < 32 {
        assert ShiftLeft(r, 1)[i] == r[i - 1];
      }
    }
  }

  lemma DividendStep(m: Word, c: Word, b: bool)
    requires |c| == 32
    ensures Dividend([b] + m, c) + [false] == Xor([false] + (Dividend(m, c) + [false]), (Zeros(32) + [b]) + Zeros(|m| + 1))
  {
    var x := Dividend([b] + m, c) + [false];
    var y := Xor([false] + (Dividend(m, c) + [false]), (Zeros(32) + [b]) + Zeros(|m| + 1));
    assert |x| == |y|;
    forall i | 0 <= i < |x|
      ensures x[i] == y[i]
    {
    }
  }

  lemma XorAssociates(a: Word, b: Word, c: Word)
    requires |a| == |b| == |c|
    ensures Xor(Xor(a, b), c) == Xor(a, Xor(b, c)) == Xor(Xor(a, c), b)
  {
  }

  lemma XorConcat(a: Word, b: Word, c: Word, d: Word)
    requires |a| == |c| && |b| == |d|
    ensures Xor(a + b, c + d) == Xor(a, c) + Xor(b, d)
  {
  }

  lemma XorZeros(n: nat)
    ensures Xor(Zeros(n), Zeros(n)) == Zeros(n)
  {
  }

  /** The coefficients of x * r + b * x^32, padded to the length of the dividend. */
  lemma PaddedStep(r: Word, byte: Word, poly: Word, b: bool, n: nat)
    requires |r| == |byte| == |poly| == 32 && byte[31] == b
    ensures Xor([false] + (r + Zeros(n + 1)), (Zeros(32) + [b]) + Zeros(n + 1))
            == Xor(Scaled(r[31] != b, Divisor(poly)) + Zeros(n + 1), Shifted(r, byte, poly) + Zeros(n + 2))
  {
    var g, s := Scaled(r[31] != b, Divisor(poly)), Shifted(r, byte, poly);
    BitStep(r, byte, poly, b);
    XorZeros(n + 1);
    assert [false] + (r + Zeros(n + 1)) == ([false] + r) + Zeros(n + 1);
    XorConcat([false] + r, Zeros(n + 1), Zeros(32) + [b], Zeros(n + 1));
    assert s + Zeros(n + 2) == (s + [false]) + Zeros(n + 1);
    XorConcat(g, Zeros(n + 1), s + [false], Zeros(n + 1));
  }

  lemma ProductStep(p: Word, g: bool, q: Word)
    ensures Product(p, [g] + q) == Xor(Scaled(g, p) + Zeros(|q| + 1), [false] + Product(p, q))
  {
    assert ([g] + q)[1..] == q;
  }

  lemma ShiftedSum(a: Word, b: Word)
    requires |a| == |b|
    ensures [false] + Xor(a, b) == Xor([false] + a, [false] + b)
  {
  }

  /** One more message bit: one more bit of the quotient. */
  lemma DividesStep(m: Word, c: Word, poly: Word, q: Word, r: Word, byte: Word, b: bool)
    requires Divides(m, c, poly, q, r) && |byte| == 32 && byte[31] == b
    ensures Divides([b] + m, c, poly, [r[31] != b] + q, Shifted(r, byte, poly))
  {
    var n, p, g, s := |m|, Divisor(poly), r[31] != b, Shifted(r, byte, poly);
    var product, rest, bit := [false] + Product(p, q), [false] + (r + Zeros(n + 1)), (Zeros(32) + [b]) + Zeros(n + 1);
    var scaled := Scaled(g, p) + Zeros(n + 1);
    DividendStep(m, c, b);
    ShiftedSum(Product(p, q), r + Zeros(n + 1));
    ProductStep(p, g, q);
    PaddedStep(r, byte, poly, b, n);
    hide Xor, Product, Dividend, Shifted, Scaled, Divisor;
    XorLength(product, rest);
    XorAssociates(product, rest, bit);
    XorAssociates(scaled, product, s + Zeros(n + 2));
    XorCommutes(product, scaled);
    XorAssociates(product, scaled, s + Zeros(n + 2));
  }

  lemma XorLength(a: Word, b: Word)
    requires |a| == |b|
    ensures |Xor(a, b)| == |a|
  {
  }

  lemma XorCommutes(a: Word, b: Word)
    requires |a| == |b|
    ensures Xor(a, b) == Xor(b, a)
  {
  }

  /** The k-th bit that a byte brings in is its bit k. */
  lemma BitOfByte(byte: Word, k: nat)
    requires |byte| == 8 && k < 8
    ensures |ShiftLeft(Rev(Extended(byte)), k)| == 32 && ShiftLeft(Rev(Extended(byte)), k)[31] == byte[k]
  {
  }

  lemma OneMoreBit(byte: Word, k: nat, m: Word)
    requires 0 < k <= |byte|
    ensures Rev(byte[..k]) + m == [byte[k - 1]] + (Rev(byte[..k - 1]) + m)
  {
    assert Rev(byte[..k]) == [byte[k - 1]] + Rev(byte[..k - 1]);
  }

  lemma {:induction false} ByteDivides(m: Word, c: Word, poly: Word, q: Word, r: Word, byte: Word, k: nat) returns (q': Word)
    requires Divides(m, c, poly, q, r) && |byte| == 8 && k <= 8
    ensures Divides(Rev(byte[..k]) + m, c, poly, q', AfterBits(r, Rev(Extended(byte)), poly, k))
  {
    if k == 0 {
      assert Rev(byte[..0]) + m == m;
      q' := q;
    } else {
      q' := ByteDivides(m, c, poly, q, r, byte, k - 1);
      var before := AfterBits(r, Rev(Extended(byte)), poly, k - 1);
      var shifted := ShiftLeft(Rev(Extended(byte)), k - 1);
      BitOfByte(byte, k - 1);
      OneMoreBit(byte, k, m);
      hide Divides, Shifted, Rev, Extended, ShiftLeft;
      DividesStep(Rev(byte[..k - 1]) + m, c, poly, q', before, shifted, byte[k - 1]);
      q' := [before[31] != byte[k - 1]] + q';
    }
  }

  lemma {:induction false} BytesDivide(data: seq<Word>, c: Word, poly: Word) returns (q: Word)
    requires |c| == |poly| == 32 && forall i :: 0 <= i < |data| ==> |data[i]| == 8
    ensures Divides(Message(data), c, poly, q, AfterBytes(c, data, poly))
  {
    if data == [] {
      NothingDivides(c, poly);
      q := [];
    } else {
      var n := |data| - 1;
      q := BytesDivide(data[..n], c, poly);
      q := ByteDivides(Message(data[..n]), c, poly, q, AfterBytes(c, data[..n], poly), data[n], 8);
      assert data[n][..8] == data[n];
    }
  }

  /** The bits of crc32, in reverse, are a remainder of the message times x^32 plus the reversed start value. */
  lemma CrcIsRemainder(data: seq<Word>, crc: Word, poly: Word) returns (q: Word)
    requires |crc| == |poly| == 32 && forall i :: 0 <= i < |data| ==> |data[i]| == 8
    ensures Divides(Message(data), Rev(crc), poly, q, Rev(Crc32(data, crc, poly)))
  {
    q := BytesDivide(data, Rev(crc), poly);
    RevInvolution(AfterBytes(Rev(crc), data, poly));
  }

  // There is only one remainder.

  predicate HasTop(q: Word, j: nat) {
    j < |q| && q[j] && forall i :: j < i < |q| ==> !q[i]
  }

  lemma {:induction false} TopOf(q: Word) returns (j: nat)
    requires q != Zeros(|q|)
    ensures HasTop(q, j)
  {
    var n := |q| - 1;
    if q[n] {
      j := n;
    } else {
      assert Zeros(n) + [false] == Zeros(n + 1);
      assert q == q[..n] + [false];
      j := TopOf(q[..n]);
    }
  }

  /** The product with a polynomial of degree 32 has the degree of q plus 32. */
  lemma {:induction false} ProductTop(p: Word, q: Word, j: nat)
    requires |p| == 33 && p[32] && HasTop(q, j)
    ensures Product(p, q)[32 + j]
  {
    if j == 0 {
      ProductOfZeros(p, q[1..]);
    } else {
      assert HasTop(q[1..], j - 1);
      ProductTop(p, q[1..], j - 1);
    }
  }

  lemma {:induction false} ProductOfZeros(p: Word, q: Word)
    requires |p| == 33 && forall i :: 0 <= i < |q| ==> !q[i]
    ensures Product(p, q) == Zeros(33 + |q|)
  {
    if q != [] {
      ProductOfZeros(p, q[1..]);
    }
  }

  lemma {:induction false} ProductLinear(p: Word, q: Word, q': Word)
    requires |q| == |q'|
    ensures Product(p, Xor(q, q')) == Xor(Product(p, q), Product(p, q'))
  {
    if q == [] {
      XorZeros(|p|);
      assert Xor(q, q') == [];
    } else {
      ProductLinear(p, q[1..], q'[1..]);
      assert Xor(q, q')[1..] == Xor(q[1..], q'[1..]);
      LinearStep(p, q[0], q'[0], Product(p, q[1..]), Product(p, q'[1..]), |q|);
    }
  }

  lemma LinearStep(p: Word, a: bool, b: bool, x: Word, y: Word, n: nat)
    requires |x| == |y| == |p| + n - 1 && n > 0
    ensures Xor(Scaled(a != b, p) + Zeros(n), [false] + Xor(x, y))
            == Xor(Xor(Scaled(a, p) + Zeros(n), [false] + x), Xor(Scaled(b, p) + Zeros(n), [false] + y))
  {
    var l := Xor(Scaled(a != b, p) + Zeros(n), [false] + Xor(x, y));
    var r := Xor(Xor(Scaled(a, p) + Zeros(n), [false] + x), Xor(Scaled(b, p) + Zeros(n), [false] + y));
    forall i | 0 <= i < |l|
      ensures l[i] == r[i]
    {
    }
  }

  /** Quotient and remainder are determined by the message, the start value and the polynomial. */
  lemma RemainderIsUnique(m: Word, c: Word, poly: Word, q: Word, r: Word, q': Word, r': Word)
    requires Divides(m, c, poly, q, r) && Divides(m, c, poly, q', r')
    ensures r == r' && q == q'
  {
    var p, n := Divisor(poly), |m|;
    var diff := Xor(q, q');
    ProductLinear(p, q, q');
    SameSum(Product(p, q), r + Zeros(n + 1), Product(p, q'), r' + Zeros(n + 1));
    hide Dividend, Divisor;
    TopOfDivisor(poly);
    LowProduct(p, diff, Xor(r + Zeros(n + 1), r' + Zeros(n + 1)));
    ProductOfZeros(p, diff);
    SameWords(r, r', n + 1);
    SameBits(q, q');
  }

  /** A multiple of degree below 32 is zero. */
  lemma LowProduct(p: Word, q: Word, w: Word)
    requires |p| == 33 && p[32] && Product(p, q) == w && forall i :: 32 <= i < |w| ==> !w[i]
    ensures q == Zeros(|q|)
  {
    if q != Zeros(|q|) {
      var j := TopOf(q);
      ProductTop(p, q, j);
    }
  }

  lemma TopOfDivisor(poly: Word)
    requires |poly| == 32
    ensures |Divisor(poly)| == 33 && Divisor(poly)[32]
  {
  }

  lemma SameSum(a: Word, b: Word, c: Word, d: Word)
    requires |a| == |b| == |c| == |d| && Xor(a, b) == Xor(c, d)
    ensures Xor(a, c) == Xor(b, d)
  {
    forall i | 0 <= i < |a|
      ensures Xor(a, c)[i] == Xor(b, d)[i]
    {
      assert Xor(a, b)[i] == Xor(c, d)[i];
    }
  }

  lemma SameBits(a: Word, b: Word)
    requires |a| == |b| && Xor(a, b) == Zeros(|a|)
    ensures a == b
  {
    forall i | 0 <= i < |a|
      ensures a[i] == b[i]
    {
      assert !Xor(a, b)[i];
    }
  }

  lemma SameWords(a: Word, b: Word, n: nat)
    requires |a| == |b| && Xor(a + Zeros(n), b + Zeros(n)) == Zeros(|a| + n)
    ensures a == b
  {
    SameBits(a + Zeros(n), b + Zeros(n));
    assert (a + Zeros(n))[..|a|] == a && (b + Zeros(n))[..|a|] == b;
  }
}
