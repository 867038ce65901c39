/** Fixed-width machine words as bit sequences, with the bitwise operators of the source. */
module Words {
  import opened Arith

  type Word = seq<bool>

  function And(a: Word, b: Word): Word
    requires |a| == |b|
  {
    seq(|a|, i requires 0 <= i < |a| => a[i] && b[i])
  }

  function Or(a: Word, b: Word): Word
    requires |a| == |b|
  {
    seq(|a|, i requires 0 <= i < |a| => a[i] || b[i])
  }

  function Xor(a: Word, b: Word): Word
    requires |a| == |b|
  {
    seq(|a|, i requires 0 <= i < |a| => a[i] != b[i])
  }

  function Not(a: Word): Word {
    seq(|a|, i requires 0 <= i < |a| => !a[i])
  }

  function Zeros(n: nat): Word {
    seq(n, _ => false)
  }

  function Ones(n: nat): Word {
    seq(n, _ => true)
  }

  // Words as numbers: bit 0 is the least significant one.

  function Pow2(n: nat): (p: nat)
    ensures p > 0
  {
    if n == 0 then 1 else 2 * Pow2(n - 1)
  }

  function Bit(b: bool): nat {
    if b then 1 else 0
  }

  function Val(w: Word): nat {
    if w == [] then 0 else Bit(w[0]) + 2 * Val(w[1..])
  }

  function Bits(x: nat, n: nat): (w: Word)
    ensures |w| == n
  {
    if n == 0 then [] else [x % 2 == 1] + Bits(x / 2, n - 1)
  }

  lemma {:induction false} ValBound(w: Word)
    ensures Val(w) < Pow2(|w|)
  {
    if w != [] {
      ValBound(w[1..]);
    }
  }

  lemma {:induction false} ValOfBits(x: nat, n: nat)
    requires x < Pow2(n)
    ensures Val(Bits(x, n)) == x
  {
    if n > 0 {
      ValOfBits(x / 2, n - 1);
      assert Bits(x, n)[1..] == Bits(x / 2, n - 1);
    }
  }

  lemma {:induction false} BitsOfVal(w: Word)
    ensures Bits(Val(w), |w|) == w
  {
    if w != [] {
      BitsOfVal(w[1..]);
    }
  }

  lemma {:induction false} ValAppend(a: Word, b: Word)
    ensures Val(a + b) == Val(a) + Pow2(|a|) * Val(b)
  {
    if a == [] {
      assert a + b == b;
    } else {
      ValAppend(a[1..], b);
      assert (a + b)[1..] == a[1..] + b;
      assert Pow2(|a|) * Val(b) == 2 * (Pow2(|a| - 1) * Val(b));
    }
  }

  lemma {:induction false} ValZeros(n: nat)
    ensures Val(Zeros(n)) == 0
  {
    if n > 0 {
      ValZeros(n - 1);
      assert Zeros(n)[1..] == Zeros(n - 1);
    }
  }

  lemma {:induction false} Pow2Add(a: nat, b: nat)
    ensures Pow2(a + b) == Pow2(a) * Pow2(b)
  {
    if a > 0 {
      Pow2Add(a - 1, b);
      assert Pow2(a) * Pow2(b) == 2 * (Pow2(a - 1) * Pow2(b));
    }
  }

  lemma {:induction false} Pow2Monotone(a: nat, b: nat)
    requires a <= b
    ensures Pow2(a) <= Pow2(b)
  {
    if a < b {
      Pow2Monotone(a, b - 1);
    }
  }

  lemma Pow2Square(k: nat, v: nat, w: nat)
    requires Pow2(k) == v && w == v * v
    ensures Pow2(2 * k) == w
  {
    Pow2Add(k, k);
  }

  lemma Pow2At64(n: nat)
    requires n == 64
    ensures Pow2(n) == TWO64
  {
    var eighth := n / 8;
    assert Pow2(eighth) == 0x100;
    hide Pow2;
    Pow2Square(eighth, 0x100, 0x1_0000);
    Pow2Square(2 * eighth, 0x1_0000, 0x1_0000_0000);
    Pow2Square(4 * eighth, 0x1_0000_0000, TWO64);
  }

  /** The highest bit in which two words differ decides which is the greater. */
  lemma {:induction false} TopBitDecides(a: Word, b: Word, d: nat)
    requires |a| == |b| && d < |a| && !a[d] && b[d] && a[d + 1..] == b[d + 1..]
    ensures Val(a) < Val(b)
  {
    if d == 0 {
    } else {
      assert a[1..][d..] == a[d + 1..] && b[1..][d..] == b[d + 1..];
      TopBitDecides(a[1..], b[1..], d - 1);
    }
  }

  lemma {:induction false} TopDifference(a: Word, b: Word) returns (d: nat)
    requires |a| == |b| && a != b
    ensures d < |a| && a[d] != b[d] && a[d + 1..] == b[d + 1..]
  {
    var n := |a| - 1;
    if a[n] != b[n] {
      d := n;
      assert a[n + 1..] == b[n + 1..];
    } else {
      assert a == a[..n] + [a[n]] && b == b[..n] + [b[n]];
      d := TopDifference(a[..n], b[..n]);
      assert a[d + 1..] == a[..n][d + 1..] + [a[n]];
      assert b[d + 1..] == b[..n][d + 1..] + [b[n]];
    }
  }

  // Bit fields, as in base/bitfield.hh.

  function ShiftRight(a: Word, s: nat): Word
    requires s <= |a|
  {
    a[s..] + Zeros(s)
  }

  function ShiftLeft(a: Word, s: nat): Word
    requires s <= |a|
  {
    Zeros(s) + a[..|a| - s]
  }

  /** mask(nbits): nbits ones, right justified, of n bits. */
  function Mask(nbits: nat, n: nat): Word {
    seq(n, i => i < nbits)
  }

  /** mask(first, last); first is an unsigned int, so first + 1 wraps to 0. */
  function MaskField(first: nat, last: nat, n: nat): Word {
    And(Mask((first + 1) % 0x1_0000_0000, n), Not(Mask(last, n)))
  }

  function InsertBits(val: Word, first: nat, last: nat, bitVal: Word): Word
    requires |val| == |bitVal| && last <= |val|
  {
    var bmask := MaskField(first, last, |val|);
    Or(And(val, Not(bmask)), And(ShiftLeft(bitVal, last), bmask))
  }

  function PopCount(a: Word): nat {
    if a == [] then 0 else Bit(a[0]) + PopCount(a[1..])
  }

  function Ctz(a: Word): (k: nat)
    ensures k <= |a| && (forall i :: 0 <= i < k ==> !a[i]) && (k < |a| ==> a[k])
  {
    if a == [] || a[0] then 0 else 1 + Ctz(a[1..])
  }

  lemma {:induction false} PopCountUpdate(a: Word, d: nat, v: bool)
    requires d < |a|
    ensures PopCount(a[d := v]) + Bit(a[d]) == PopCount(a) + Bit(v)
  {
    if d == 0 {
      assert a[0 := v][1..] == a[1..];
    } else {
      PopCountUpdate(a[1..], d - 1, v);
      assert a[d := v][1..] == a[1..][d - 1 := v];
    }
  }

  lemma {:induction false} PopCountZeros(n: nat)
    ensures PopCount(Zeros(n)) == 0
  {
    if n > 0 {
      PopCountZeros(n - 1);
      assert Zeros(n)[1..] == Zeros(n - 1);
    }
  }

  lemma {:induction false} ZeroBits(n: nat)
    ensures Bits(0, n) == Zeros(n)
  {
    if n > 0 {
      ZeroBits(n - 1);
      assert Zeros(n) == [false] + Zeros(n - 1);
    }
  }

  lemma {:induction false} LowOnes(k: nat, n: nat)
    requires k <= n
    ensures Bits(Pow2(k) - 1, n) == Mask(k, n)
  {
    if n > 0 {
      if k == 0 {
        ZeroBits(n);
        assert Mask(0, n) == Zeros(n);
      } else {
        LowOnes(k - 1, n - 1);
        assert Mask(k, n) == [true] + Mask(k - 1, n - 1);
      }
    } else {
      assert Mask(k, n) == [];
    }
  }

  lemma {:induction false} BitsOfPow2(k: nat, n: nat)
    requires k < n
    ensures Bits(Pow2(k), n) == Zeros(n)[k := true]
  {
    if k == 0 {
      ZeroBits(n - 1);
      assert Zeros(n)[0 := true] == [true] + Zeros(n - 1);
    } else {
      BitsOfPow2(k - 1, n - 1);
      assert Zeros(n)[k := true] == [false] + Zeros(n - 1)[k - 1 := true];
    }
  }
}
