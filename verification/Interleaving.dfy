/**
 The bit striping of an interleaved AddrRange (base/addr_range.hh): selector bits by XOR masks, and
 the removal and re-insertion of the lowest bit of every mask.
 */
module Interleaving {
  import opened Sorting
  import opened Words

  const ADDR_BITS := 64

  /** What a vector of interleaving masks must be: non-zero addresses with distinct lowest bits. */
  ghost predicate MasksOk(masks: seq<Word>) {
    && (forall i :: 0 <= i < |masks| ==> |masks[i]| == ADDR_BITS && Ctz(masks[i]) < ADDR_BITS)
    && (forall i, j :: 0 <= i < j < |masks| ==> Ctz(masks[i]) != Ctz(masks[j]))
  }

  /** The XOR of the bits of a that mask m selects. */
  predicate Parity(a: Word, m: Word)
    requires |a| == |m|
  {
    PopCount(And(a, m)) % 2 == 1
  }

  /** sel, from its least significant bit. */
  function Selector(masks: seq<Word>, a: Word): Word
    requires forall i :: 0 <= i < |masks| ==> |masks[i]| == |a|
  {
    seq(|masks|, i requires 0 <= i < |masks| => Parity(a, masks[i]))
  }

  ghost function Lsbs(masks: seq<Word>): set<nat> {
    set i | 0 <= i < |masks| :: Ctz(masks[i])
  }

  /** The bits of a, at positions from base, that are not at a dropped position. */
  ghost function Kept(a: Word, drop: set<nat>, base: nat): Word {
    if a == [] then [] else (if base in drop then [] else [a[0]]) + Kept(a[1..], drop, base + 1)
  }

  lemma SeqAssociates(a: Word, b: Word, c: Word)
    ensures a + (b + c) == (a + b) + c
  {
  }

  lemma {:induction false} KeptAppend(a: Word, b: Word, drop: set<nat>, base: nat)
    ensures Kept(a + b, drop, base) == Kept(a, drop, base) + Kept(b, drop, base + |a|)
  {
    if a == [] {
      assert a + b == b;
    } else {
      var first := if base in drop then [] else [a[0]];
      assert Kept(a, drop, base) == first + Kept(a[1..], drop, base + 1);
      assert Kept(a + b, drop, base) == first + Kept((a + b)[1..], drop, base + 1);
      hide Kept;
      KeptAppend(a[1..], b, drop, base + 1);
      assert (a + b)[1..] == a[1..] + b;
      SeqAssociates(first, Kept(a[1..], drop, base + 1), Kept(b, drop, base + |a|));
    }
  }

  lemma {:induction false} KeptAll(a: Word, drop: set<nat>, base: nat)
    requires forall k :: base <= k < base + |a| ==> k !in drop
    ensures Kept(a, drop, base) == a
  {
    if a != [] {
      KeptAll(a[1..], drop, base + 1);
    }
  }

  /** Dropping bits keeps the order of words whose highest difference is at a kept position. */
  lemma {:induction false} KeptKeepsOrder(a: Word, b: Word, drop: set<nat>, base: nat, d: nat)
    requires |a| == |b| && d < |a| && !a[d] && b[d] && a[d + 1..] == b[d + 1..] && base + d !in drop
    ensures |Kept(a, drop, base)| == |Kept(b, drop, base)| && Val(Kept(a, drop, base)) < Val(Kept(b, drop, base))
  {
    if d > 0 {
      assert a[1..][d..] == a[d + 1..] && b[1..][d..] == b[d + 1..];
      KeptKeepsOrder(a[1..], b[1..], drop, base + 1, d - 1);
    }
    ValOfFirst(a, drop, base);
    ValOfFirst(b, drop, base);
  }

  lemma ValOfFirst(a: Word, drop: set<nat>, base: nat)
    requires a != []
    ensures Val(Kept(a, drop, base)) ==
            if base in drop then Val(Kept(a[1..], drop, base + 1)) else Bit(a[0]) + 2 * Val(Kept(a[1..], drop, base + 1))
  {
    var k := Kept(a[1..], drop, base + 1);
    assert ([] + k) == k && ([a[0]] + k)[1..] == k;
  }

  /** 1ULL << k */
  function OneBit(k: nat): Word
    requires k < ADDR_BITS
  {
    Zeros(ADDR_BITS)[k := true]
  }

  lemma ParityOneBit(a: Word, k: nat)
    requires |a| == ADDR_BITS && k < ADDR_BITS
    ensures Parity(a, OneBit(k)) == a[k]
  {
    PopCountZeros(ADDR_BITS);
    PopCountUpdate(Zeros(ADDR_BITS), k, a[k]);
    assert And(a, OneBit(k)) == Zeros(ADDR_BITS)[k := a[k]];
  }

  // Flipping one bit flips exactly the parities that look at it.

  lemma ParityUpdate(a: Word, m: Word, d: nat, v: bool)
    requires |a| == |m| && d < |a|
    ensures Parity(a[d := v], m) == (Parity(a, m) != (m[d] && a[d] != v))
  {
    var x := And(a, m);
    assert And(a[d := v], m) == x[d := v && m[d]];
    PopCountUpdate(x, d, v && m[d]);
  }

  lemma ParityDiffers(a: Word, b: Word, m: Word)
    requires |a| == |b| == |m| && Ctz(m) < |m|
    requires a[Ctz(m)] != b[Ctz(m)] && a[Ctz(m) + 1..] == b[Ctz(m) + 1..]
    ensures Parity(a, m) != Parity(b, m)
  {
    var d := Ctz(m);
    var c := a[d := b[d]];
    ParityUpdate(a, m, d, b[d]);
    assert And(c, m) == And(b, m) by {
      forall i | 0 <= i < |m|
        ensures And(c, m)[i] == And(b, m)[i]
      {
        if i > d {
          assert a[i] == a[d + 1..][i - d - 1] && b[i] == b[d + 1..][i - d - 1];
        }
      }
    }
  }

  /** If two addresses have equal selectors, their highest difference is at a kept bit. */
  lemma HighestDifferenceIsKept(masks: seq<Word>, a: Word, b: Word, d: nat)
    requires MasksOk(masks) && |a| == |b| == ADDR_BITS && Selector(masks, a) == Selector(masks, b)
    requires d < |a| && a[d] != b[d] && a[d + 1..] == b[d + 1..]
    ensures d !in Lsbs(masks)
  {
    forall i | 0 <= i < |masks|
      ensures Ctz(masks[i]) != d
    {
      assert Selector(masks, a)[i] == Parity(a, masks[i]) && Selector(masks, b)[i] == Parity(b, masks[i]);
      if Ctz(masks[i]) == d {
        ParityDiffers(a, b, masks[i]);
      }
    }
  }

  /** Among the addresses of one stripe, dropping the lowest mask bits is strictly increasing. */
  lemma DroppingKeepsOrder(masks: seq<Word>, a: Word, b: Word)
    requires MasksOk(masks) && |a| == |b| == ADDR_BITS && Selector(masks, a) == Selector(masks, b)
    ensures Val(a) < Val(b) ==> Val(Kept(a, Lsbs(masks), 0)) < Val(Kept(b, Lsbs(masks), 0))
  {
    if Val(a) < Val(b) {
      var d := TopDifference(a, b);
      HighestDifferenceIsKept(masks, a, b, d);
      if a[d] {
        TopBitDecides(b, a, d);
      } else {
        KeptKeepsOrder(a, b, Lsbs(masks), 0, d);
      }
    }
  }

  /** An address is determined by its stripe and the bits that stay. */
  lemma StripeAndKeptDetermine(masks: seq<Word>, a: Word, b: Word)
    requires MasksOk(masks) && |a| == |b| == ADDR_BITS && Selector(masks, a) == Selector(masks, b)
    requires Kept(a, Lsbs(masks), 0) == Kept(b, Lsbs(masks), 0)
    ensures a == b
  {
    DroppingKeepsOrder(masks, a, b);
    DroppingKeepsOrder(masks, b, a);
    BitsOfVal(a);
    BitsOfVal(b);
  }

  // removeIntlvBits

  /** One removal: bit has moved down by i already, and bit - i - 1 is an unsigned int. */
  function RemoveOne(a: Word, bit: nat, i: nat): Word
    requires |a| > 0
  {
    if bit > 0 then InsertBits(ShiftRight(a, 1), (bit - i - 1) % 0x1_0000_0000, 0, a) else ShiftRight(a, 1)
  }

  lemma InsertBitsDeletes(a: Word, bit: nat, i: nat)
    requires |a| == ADDR_BITS && i <= bit < ADDR_BITS
    ensures RemoveOne(a, bit, i) == a[..bit - i] + a[bit - i + 1..] + [false]
  {
    var p := bit - i;
    var first := (bit - i - 1) % 0x1_0000_0000;
    assert (first + 1) % 0x1_0000_0000 == p;
    assert ShiftLeft(a, 0) == a;
    forall k | 0 <= k < |a|
      ensures RemoveOne(a, bit, i)[k] == (a[..p] + a[p + 1..] + [false])[k]
    {
      assert MaskField(first, 0, |a|)[k] == (k < p);
    }
  }

  /** The lowest bits of the masks in increasing order. */
  function LsbList(masks: seq<Word>): seq<int> {
    SortInts(seq(|masks|, i requires 0 <= i < |masks| => Ctz(masks[i])))
  }

  method SortedLsbs(masks: seq<Word>) returns (lsbs: seq<int>)
    requires MasksOk(masks)
    ensures lsbs == LsbList(masks)
    ensures |lsbs| == |masks| && forall i, j :: 0 <= i < j < |lsbs| ==> lsbs[i] < lsbs[j]
    ensures forall k :: k in lsbs <==> k in Lsbs(masks)
    ensures forall i :: 0 <= i < |lsbs| ==> 0 <= lsbs[i] < ADDR_BITS
  {
    var raw := [];
    for i := 0 to |masks|
      invariant |raw| == i && forall k :: 0 <= k < i ==> raw[k] == Ctz(masks[k])
    {
      raw := raw + [Ctz(masks[i])];
    }
    lsbs := SortInts(raw);
    assert raw == seq(|masks|, i requires 0 <= i < |masks| => Ctz(masks[i]));
    LsbListOk(masks);
  }

  lemma KeptUpTo(addr: Word, drop: set<nat>, q: nat, r: nat)
    requires q <= r <= |addr| && forall k :: q <= k < r ==> k !in drop
    ensures Kept(addr[..r], drop, 0) == Kept(addr[..q], drop, 0) + addr[q..r]
  {
    hide Kept;
    assert addr[..r] == addr[..q] + addr[q..r];
    KeptAppend(addr[..q], addr[q..r], drop, 0);
    KeptAll(addr[q..r], drop, q);
  }

  /** a is addr with the mask bits below q closed up. */
  ghost predicate Closed(a: Word, addr: Word, drop: set<nat>, q: nat, i: nat) {
    |a| == |addr| == ADDR_BITS && q <= ADDR_BITS && a == Kept(addr[..q], drop, 0) + addr[q..] + Zeros(i)
  }

  /** One turn of the removal loop, at the next mask bit after q. */
  lemma CloseStep(addr: Word, drop: set<nat>, a: Word, q: nat, bit: nat, i: nat)
    requires Closed(a, addr, drop, q, i) && q <= bit < ADDR_BITS
    requires bit in drop && forall k :: q <= k < bit ==> k !in drop
    ensures Closed(RemoveOne(a, bit, i), addr, drop, bit + 1, i + 1)
  {
    KeptUpTo(addr, drop, q, bit);
    var k := Kept(addr[..bit], drop, 0);
    assert a == k + addr[bit..] + Zeros(i) by {
      assert addr[q..] == addr[q..bit] + addr[bit..];
    }
    assert |k| == bit - i;
    KeptDropsLast(addr, drop, bit);
    InsertBitsDeletes(a, bit, i);
    assert a[..bit - i] == k;
    assert a[bit - i + 1..] == addr[bit + 1..] + Zeros(i);
    assert Zeros(i + 1) == Zeros(i) + [false];
  }

  lemma ClosedIsRemoved(addr: Word, masks: seq<Word>, a: Word, q: nat)
    requires Closed(a, addr, Lsbs(masks), q, |masks|) && forall k :: q <= k ==> k !in Lsbs(masks)
    ensures a == Removed(masks, addr)
  {
    KeptUpTo(addr, Lsbs(masks), q, |addr|);
    assert addr[..|addr|] == addr && addr[q..|addr|] == addr[q..];
  }

  /** What removal means: the lowest bit of every mask is gone, the rest closes up. */
  ghost function Removed(masks: seq<Word>, a: Word): Word {
    Kept(a, Lsbs(masks), 0) + Zeros(|masks|)
  }

  method RemoveIntlvBits(masks: seq<Word>, addr: Word) returns (a: Word)
    requires MasksOk(masks) && |addr| == ADDR_BITS
    ensures |a| == ADDR_BITS && a == Removed(masks, addr)
  {
    ghost var drop := Lsbs(masks);
    a := addr;
    if masks == [] {
      KeptAll(addr, drop, 0);
      assert a == a + Zeros(0);
      return;
    }
    var lsbs := SortedLsbs(masks);
    ghost var q := 0;
    for i := 0 to |masks|
      invariant q == (if i == 0 then 0 else lsbs[i - 1] + 1) && Closed(a, addr, drop, q, i)
    {
      assert lsbs[i] in lsbs;
      NextLsb(masks, lsbs, i, q);
      CloseStep(addr, drop, a, q, lsbs[i], i);
      a := RemoveOne(a, lsbs[i], i);
      q := lsbs[i] + 1;
    }
    NextLsb(masks, lsbs, |masks|, q);
    ClosedIsRemoved(addr, masks, a, q);
  }

  /** No lowest mask bit lies between two neighbours in the sorted list. */
  lemma NextLsb(masks: seq<Word>, lsbs: seq<int>, i: nat, q: nat)
    requires i <= |lsbs| && q == (if i == 0 then 0 else lsbs[i - 1] + 1)
    requires forall k, m :: 0 <= k < m < |lsbs| ==> lsbs[k] < lsbs[m]
    requires forall k :: k in lsbs <==> k in Lsbs(masks)
    ensures forall k :: q <= k && (i < |lsbs| ==> k < lsbs[i]) ==> k !in Lsbs(masks)
  {
    forall k | q <= k && k in Lsbs(masks)
      ensures i < |lsbs| && lsbs[i] <= k
    {
      var m :| 0 <= m < |lsbs| && lsbs[m] == k;
    }
  }

  // addIntlvBits: first the removed bits are opened up again ...

  function AddOne(a: Word, bit: nat): Word
    requires 0 < |a| && bit <= |a|
  {
    if bit > 0 then InsertBits(ShiftLeft(a, 1), bit - 1, 0, a) else ShiftLeft(a, 1)
  }

  /** The opened bit repeats its lower neighbour; the top bit is shifted out. */
  lemma AddOneOpens(a: Word, bit: nat)
    requires |a| == ADDR_BITS && bit < ADDR_BITS
    ensures AddOne(a, bit) == a[..bit] + [bit > 0 && a[bit - 1]] + a[bit..ADDR_BITS - 1]
  {
    var r := AddOne(a, bit);
    forall k | 0 <= k < |a|
      ensures r[k] == (a[..bit] + [bit > 0 && a[bit - 1]] + a[bit..ADDR_BITS - 1])[k]
    {
      if bit > 0 {
        assert MaskField(bit - 1, 0, |a|)[k] == (k < bit);
        assert ShiftLeft(a, 0)[k] == a[k];
      }
    }
  }

  ghost function Spread(lsbs: seq<int>, b: Word, i: nat): (a: Word)
    requires i <= |lsbs| && |b| == ADDR_BITS && forall k :: 0 <= k < |lsbs| ==> 0 <= lsbs[k] < ADDR_BITS
    ensures |a| == ADDR_BITS
  {
    if i == 0 then b else AddOne(Spread(lsbs, b, i - 1), lsbs[i - 1])
  }

  /** a holds the bits of b around the positions that have been opened below q. */
  ghost predicate Opened(a: Word, b: Word, drop: set<nat>, q: nat, i: nat)
    requires |a| == |b| == ADDR_BITS
  {
    i <= q <= ADDR_BITS && Kept(a[..q], drop, 0) == b[..q - i] && a[q..] == b[q - i..ADDR_BITS - i]
  }

  lemma KeptDropsLast(c: Word, drop: set<nat>, bit: nat)
    requires bit < |c| && bit in drop
    ensures Kept(c[..bit + 1], drop, 0) == Kept(c[..bit], drop, 0)
  {
    assert c[..bit + 1] == c[..bit] + [c[bit]];
    KeptAppend(c[..bit], [c[bit]], drop, 0);
    assert Kept([c[bit]], drop, bit) == [];
  }

  lemma SliceFurther(a: Word, b: Word, q: nat, i: nat, lo: nat, hi: nat)
    requires |a| == |b| == ADDR_BITS && i <= q <= lo <= hi <= ADDR_BITS && a[q..] == b[q - i..ADDR_BITS - i]
    ensures a[lo..hi] == b[lo - i..hi - i]
  {
    forall k | lo <= k < hi
      ensures a[k] == b[k - i]
    {
      assert a[k] == a[q..][k - q] == b[q - i..ADDR_BITS - i][k - q];
    }
    var x, y := a[lo..hi], b[lo - i..hi - i];
    assert |x| == |y| && forall k :: 0 <= k < |x| ==> x[k] == a[lo + k] && y[k] == b[lo + k - i];
  }

  lemma OpenStep(a: Word, b: Word, drop: set<nat>, q: nat, i: nat, bit: nat)
    requires |a| == |b| == ADDR_BITS && Opened(a, b, drop, q, i) && q <= bit < ADDR_BITS
    requires bit in drop && forall k :: q <= k < bit ==> k !in drop
    ensures Opened(AddOne(a, bit), b, drop, bit + 1, i + 1)
  {
    AddOneOpens(a, bit);
    OpenStepAt(a, b, drop, q, i, bit, AddOne(a, bit));
  }

  lemma OpenStepAt(a: Word, b: Word, drop: set<nat>, q: nat, i: nat, bit: nat, c: Word)
    requires |a| == |b| == |c| == ADDR_BITS && Opened(a, b, drop, q, i) && q <= bit < ADDR_BITS
    requires bit in drop && forall k :: q <= k < bit ==> k !in drop
    requires c == a[..bit] + [c[bit]] + a[bit..ADDR_BITS - 1]
    ensures Opened(c, b, drop, bit + 1, i + 1)
  {
    SliceFurther(a, b, q, i, bit, ADDR_BITS - 1);
    assert c[bit + 1..] == b[bit - i..ADDR_BITS - 1 - i];
    SliceFurther(a, b, q, i, q, bit);
    KeptUpTo(a, drop, q, bit);
    KeptDropsLast(c, drop, bit);
    assert c[..bit] == a[..bit];
    assert b[..q - i] + b[q - i..bit - i] == b[..bit - i];
  }

  lemma {:induction false} SpreadOpens(masks: seq<Word>, lsbs: seq<int>, b: Word, i: nat)
    requires MasksOk(masks) && lsbs == LsbList(masks) && |b| == ADDR_BITS && i <= |lsbs|
    requires forall k, m :: 0 <= k < m < |lsbs| ==> lsbs[k] < lsbs[m]
    requires forall k :: k in lsbs <==> k in Lsbs(masks)
    requires forall k :: 0 <= k < |lsbs| ==> 0 <= lsbs[k] < ADDR_BITS
    ensures Opened(Spread(lsbs, b, i), b, Lsbs(masks), if i == 0 then 0 else lsbs[i - 1] + 1, i)
  {
    hide Opened, LsbList, MasksOk;
    if i == 0 {
      NothingOpened(b, Lsbs(masks));
    } else {
      SpreadOpens(masks, lsbs, b, i - 1);
      var q := if i == 1 then 0 else lsbs[i - 2] + 1;
      NextLsb(masks, lsbs, i - 1, q);
      assert lsbs[i - 1] in lsbs;
      hide Lsbs;
      OpenStep(Spread(lsbs, b, i - 1), b, Lsbs(masks), q, i - 1, lsbs[i - 1]);
    }
  }

  lemma NothingOpened(b: Word, drop: set<nat>)
    requires |b| == ADDR_BITS
    ensures Opened(b, b, drop, 0, 0)
  {
    assert b[0..] == b[0..ADDR_BITS];
  }

  // ... then the lowest bit of every mask is set so that the selector comes out.

  /** ~(1 << lsb), where 1 is an int; lsb is below 31. */
  function AllBut(lsb: nat): Word {
    seq(ADDR_BITS, k => k != lsb)
  }

  function SettleOne(masks: seq<Word>, target: Word, a: Word, i: nat): Word
    requires i < |masks| == |target| && |a| == |masks[i]| == ADDR_BITS && Ctz(masks[i]) < 31
  {
    var lsb := Ctz(masks[i]);
    var masked := And(And(a, masks[i]), AllBut(lsb));
    InsertBits(a, lsb, lsb, Xor(Bits(Bit(target[i]), ADDR_BITS), Bits(PopCount(masked), ADDR_BITS)))
  }

  /** The same in terms of parities. */
  function SetLsb(masks: seq<Word>, target: Word, a: Word, i: nat): (r: Word)
    requires i < |masks| == |target| && |a| == |masks[i]| == ADDR_BITS && Ctz(masks[i]) < ADDR_BITS
    ensures |r| == ADDR_BITS
  {
    var lsb := Ctz(masks[i]);
    a[lsb := target[i] != Parity(a, masks[i][lsb := false])]
  }

  lemma SettleOneSetsLsb(masks: seq<Word>, target: Word, a: Word, i: nat)
    requires i < |masks| == |target| && |a| == |masks[i]| == ADDR_BITS && Ctz(masks[i]) < 31
    ensures SettleOne(masks, target, a, i) == SetLsb(masks, target, a, i)
  {
    var lsb := Ctz(masks[i]);
    var masked := And(And(a, masks[i]), AllBut(lsb));
    hide And, Bits, Xor, PopCount, InsertBits;
    MaskedIs(a, masks[i], lsb);
    var v := Xor(Bits(Bit(target[i]), ADDR_BITS), Bits(PopCount(masked), ADDR_BITS));
    LowestOfXor(target[i], PopCount(masked));
    InsertOneBit(a, lsb, v);
  }

  lemma MaskedIs(a: Word, m: Word, lsb: nat)
    requires |a| == |m| == ADDR_BITS && lsb < 31
    ensures And(And(a, m), AllBut(lsb)) == And(a, m[lsb := false])
  {
  }

  lemma LowestOfXor(bit: bool, x: nat)
    ensures Xor(Bits(Bit(bit), ADDR_BITS), Bits(x, ADDR_BITS))[0] == (bit != (x % 2 == 1))
  {
  }

  lemma InsertOneBit(a: Word, lsb: nat, v: Word)
    requires |a| == |v| == ADDR_BITS && lsb < ADDR_BITS
    ensures InsertBits(a, lsb, lsb, v) == a[lsb := v[0]]
  {
    var r := InsertBits(a, lsb, lsb, v);
    forall k | 0 <= k < ADDR_BITS
      ensures r[k] == a[lsb := v[0]][k]
    {
      assert MaskField(lsb, lsb, ADDR_BITS)[k] == (k == lsb);
      assert ShiftLeft(v, lsb)[lsb] == v[0];
    }
  }

  ghost predicate Shallow(masks: seq<Word>) {
    forall i :: 0 <= i < |masks| ==> Ctz(masks[i]) < 31
  }

  /** The result of the parity loop after k masks. */
  ghost function Settled(masks: seq<Word>, target: Word, a: Word, k: nat): (r: Word)
    requires MasksOk(masks) && k <= |masks| == |target| && |a| == ADDR_BITS
    ensures |r| == ADDR_BITS
  {
    if k == 0 then a else SetLsb(masks, target, Settled(masks, target, a, k - 1), k - 1)
  }

  /** The address that addIntlvBits returns. */
  ghost function Added(masks: seq<Word>, target: Word, b: Word): (r: Word)
    requires MasksOk(masks) && |masks| == |target| && |b| == ADDR_BITS
    ensures |r| == ADDR_BITS
  {
    LsbListOk(masks);
    Settled(masks, target, Spread(LsbList(masks), b, |masks|), |masks|)
  }

  lemma LsbListOk(masks: seq<Word>)
    requires MasksOk(masks)
    ensures var l := LsbList(masks);
            && |l| == |masks| && (forall i, j :: 0 <= i < j < |l| ==> l[i] < l[j])
            && (forall k :: k in l <==> k in Lsbs(masks))
            && (forall i :: 0 <= i < |l| ==> 0 <= l[i] < ADDR_BITS)
  {
    var raw := seq(|masks|, i requires 0 <= i < |masks| => Ctz(masks[i]));
    SortDistinct(raw);
    forall k
      ensures k in raw <==> k in Lsbs(masks)
    {
      if k in raw {
        var i :| 0 <= i < |raw| && raw[i] == k;
      }
      if k in Lsbs(masks) {
        var i :| 0 <= i < |masks| && Ctz(masks[i]) == k;
        assert raw[i] == k;
      }
    }
    var l := LsbList(masks);
    forall i | 0 <= i < |l|
      ensures 0 <= l[i] < ADDR_BITS
    {
      assert l[i] in l;
    }
  }

  method AddIntlvBits(masks: seq<Word>, target: Word, b: Word) returns (a: Word)
    requires MasksOk(masks) && Shallow(masks) && |masks| == |target| && |b| == ADDR_BITS
    ensures a == Added(masks, target, b)
  {
    a := b;
    if masks == [] {
      return;
    }
    var lsbs := SortedLsbs(masks);
    for i := 0 to |masks|
      invariant a == Spread(lsbs, b, i)
    {
      a := AddOne(a, lsbs[i]);
    }
    ghost var c := a;
    for i := 0 to |masks|
      invariant a == Settled(masks, target, c, i)
    {
      SettleOneSetsLsb(masks, target, a, i);
      a := SettleOne(masks, target, a, i);
    }
  }

  lemma KeptUpdate(a: Word, drop: set<nat>, d: nat, v: bool)
    requires d < |a| && d in drop
    ensures Kept(a[d := v], drop, 0) == Kept(a, drop, 0)
  {
    var c := a[d := v];
    assert a == a[..d + 1] + a[d + 1..] && c == c[..d + 1] + c[d + 1..];
    KeptAppend(a[..d + 1], a[d + 1..], drop, 0);
    KeptAppend(c[..d + 1], c[d + 1..], drop, 0);
    KeptDropsLast(a, drop, d);
    KeptDropsLast(c, drop, d);
    assert a[..d] == c[..d] && a[d + 1..] == c[d + 1..];
  }

  lemma {:induction false} SettledKeeps(masks: seq<Word>, target: Word, a: Word, k: nat)
    requires MasksOk(masks) && k <= |masks| == |target| && |a| == ADDR_BITS
    ensures Kept(Settled(masks, target, a, k), Lsbs(masks), 0) == Kept(a, Lsbs(masks), 0)
  {
    if k > 0 {
      SettledKeeps(masks, target, a, k - 1);
      var c := Settled(masks, target, a, k - 1);
      var lsb := Ctz(masks[k - 1]);
      KeptUpdate(c, Lsbs(masks), lsb, target[k - 1] != Parity(c, masks[k - 1][lsb := false]));
    }
  }

  lemma SetLsbSettles(masks: seq<Word>, target: Word, a: Word, i: nat)
    requires i < |masks| == |target| && |a| == |masks[i]| == ADDR_BITS && Ctz(masks[i]) < ADDR_BITS
    ensures Parity(SetLsb(masks, target, a, i), masks[i]) == target[i]
  {
    var m, lsb := masks[i], Ctz(masks[i]);
    var r := SetLsb(masks, target, a, i);
    ParityUpdate(a, m[lsb := false], lsb, r[lsb]);
    var x := And(r, m);
    assert And(r, m[lsb := false]) == x[lsb := false];
    PopCountUpdate(x, lsb, false);
  }

  /** Masks come in an order in which no mask looks at the lowest bit of a later one. */
  ghost predicate InOrder(masks: seq<Word>)
    requires MasksOk(masks)
  {
    forall i, j :: 0 <= i < j < |masks| ==> !masks[i][Ctz(masks[j])]
  }

  lemma {:induction false} SettledMatches(masks: seq<Word>, target: Word, a: Word, k: nat)
    requires MasksOk(masks) && InOrder(masks) && k <= |masks| == |target| && |a| == ADDR_BITS
    ensures forall i :: 0 <= i < k ==> Parity(Settled(masks, target, a, k), masks[i]) == target[i]
  {
    if k > 0 {
      SettledMatches(masks, target, a, k - 1);
      var c := Settled(masks, target, a, k - 1);
      SetLsbSettles(masks, target, c, k - 1);
      var lsb := Ctz(masks[k - 1]);
      forall i | 0 <= i < k - 1
        ensures Parity(Settled(masks, target, a, k), masks[i]) == target[i]
      {
        ParityUpdate(c, masks[i], lsb, target[k - 1] != Parity(c, masks[k - 1][lsb := false]));
      }
    }
  }

  /** Every bit of b survives, in the order in which removal finds it. */
  lemma AddedKeeps(masks: seq<Word>, target: Word, b: Word)
    requires MasksOk(masks) && |masks| == |target| && |b| == ADDR_BITS
    ensures |masks| <= ADDR_BITS
    ensures Kept(Added(masks, target, b), Lsbs(masks), 0) == b[..ADDR_BITS - |masks|]
  {
    LsbListOk(masks);
    var lsbs, n := LsbList(masks), |masks|;
    var a := Spread(lsbs, b, n);
    SettledKeeps(masks, target, a, n);
    SpreadOpens(masks, lsbs, b, n);
    var q := if n == 0 then 0 else lsbs[n - 1] + 1;
    NextLsb(masks, lsbs, n, q);
    hide Spread, Lsbs, LsbList, Settled, Opened;
    OpenedKeeps(a, b, Lsbs(masks), q, n);
  }

  lemma OpenedKeeps(a: Word, b: Word, drop: set<nat>, q: nat, n: nat)
    requires |a| == |b| == ADDR_BITS && Opened(a, b, drop, q, n) && forall k :: q <= k ==> k !in drop
    ensures n <= ADDR_BITS && Kept(a, drop, 0) == b[..ADDR_BITS - n]
  {
    KeptUpTo(a, drop, q, ADDR_BITS);
    hide Kept;
    assert a[..ADDR_BITS] == a && a[q..ADDR_BITS] == a[q..];
    assert b[..q - n] + b[q - n..ADDR_BITS - n] == b[..ADDR_BITS - n];
  }

  lemma RemoveUndoesAdd(masks: seq<Word>, target: Word, b: Word)
    requires MasksOk(masks) && |masks| == |target| && |b| == ADDR_BITS
    requires Below(b, |masks|)
    ensures Removed(masks, Added(masks, target, b)) == b
  {
    AddedKeeps(masks, target, b);
  }

  lemma AddLandsInStripe(masks: seq<Word>, target: Word, b: Word)
    requires MasksOk(masks) && InOrder(masks) && |masks| == |target| && |b| == ADDR_BITS
    ensures Selector(masks, Added(masks, target, b)) == target
  {
    LsbListOk(masks);
    SettledMatches(masks, target, Spread(LsbList(masks), b, |masks|), |masks|);
  }

  lemma RemovedTop(masks: seq<Word>, a: Word)
    requires MasksOk(masks) && |a| == ADDR_BITS
    ensures |masks| <= ADDR_BITS && |Kept(a, Lsbs(masks), 0)| == ADDR_BITS - |masks|
  {
    AddedKeeps(masks, Zeros(|masks|), a);
    KeptSameLength(a, Added(masks, Zeros(|masks|), a), Lsbs(masks), 0);
  }

  lemma {:induction false} KeptSameLength(a: Word, b: Word, drop: set<nat>, base: nat)
    requires |a| == |b|
    ensures |Kept(a, drop, base)| == |Kept(b, drop, base)|
  {
    if a != [] {
      KeptSameLength(a[1..], b[1..], drop, base + 1);
    }
  }

  lemma AddUndoesRemove(masks: seq<Word>, a: Word)
    requires MasksOk(masks) && InOrder(masks) && |a| == ADDR_BITS
    ensures |Removed(masks, a)| == ADDR_BITS && Added(masks, Selector(masks, a), Removed(masks, a)) == a
  {
    RemovedTop(masks, a);
    var b, sel := Removed(masks, a), Selector(masks, a);
    AddedKeeps(masks, sel, b);
    AddLandsInStripe(masks, sel, b);
    assert b[..ADDR_BITS - |masks|] == Kept(a, Lsbs(masks), 0);
    StripeAndKeptDetermine(masks, Added(masks, sel, b), a);
  }

  /** Every choice of the kept bits occurs in every stripe: the mask bits can be chosen from the highest down. */
  lemma {:induction false} Solve(masks: seq<Word>, target: Word, c: Word, d: nat) returns (w: Word)
    requires MasksOk(masks) && |masks| == |target| && |c| == ADDR_BITS && d <= ADDR_BITS
    ensures |w| == ADDR_BITS && Kept(w, Lsbs(masks), 0) == Kept(c, Lsbs(masks), 0)
    ensures forall i :: 0 <= i < |masks| && Ctz(masks[i]) >= d ==> Parity(w, masks[i]) == target[i]
    decreases ADDR_BITS - d
  {
    if d == ADDR_BITS {
      return c;
    }
    w := Solve(masks, target, c, d + 1);
    if i :| 0 <= i < |masks| && Ctz(masks[i]) == d {
      var u := w;
      SetLsbSettles(masks, target, u, i);
      w := SetLsb(masks, target, u, i);
      KeptUpdate(u, Lsbs(masks), d, w[d]);
      forall j | 0 <= j < |masks| && Ctz(masks[j]) > d
        ensures Parity(w, masks[j]) == target[j]
      {
        ParityUpdate(u, masks[j], d, w[d]);
      }
    }
  }

  // Without the order, addIntlvBits misses the stripe for some address and some match value.

  /** Up to step j a flipped match bit j makes no difference; from then on the lowest bits from j on may differ. */
  lemma {:induction false} FlipSpreads(masks: seq<Word>, m: Word, a: Word, j: nat, k: nat, p: nat)
    requires MasksOk(masks) && j < |masks| == |m| && k <= |masks| && |a| == ADDR_BITS && p < ADDR_BITS
    requires p == Ctz(masks[j]) || forall i :: j <= i < |masks| ==> p != Ctz(masks[i])
    ensures k <= j ==> Settled(masks, m, a, k) == Settled(masks, m[j := !m[j]], a, k)
    ensures (Settled(masks, m, a, k)[p] != Settled(masks, m[j := !m[j]], a, k)[p]) <==> (k > j && p == Ctz(masks[j]))
  {
    if k > 0 {
      FlipSpreads(masks, m, a, j, k - 1, p);
    }
  }

  lemma FlipChangesParity(masks: seq<Word>, m: Word, a: Word, i: nat, j: nat)
    requires MasksOk(masks) && i < j < |masks| == |m| && |a| == ADDR_BITS && masks[i][Ctz(masks[j])]
    requires forall k :: j < k < |masks| ==> !masks[i][Ctz(masks[k])]
    ensures Parity(Settled(masks, m, a, |masks|), masks[i]) != Parity(Settled(masks, m[j := !m[j]], a, |masks|), masks[i])
  {
    var x, y := Settled(masks, m, a, |masks|), Settled(masks, m[j := !m[j]], a, |masks|);
    var d := Ctz(masks[j]);
    FlipSpreads(masks, m, a, j, |masks|, d);
    assert And(x[d := y[d]], masks[i]) == And(y, masks[i]) by {
      forall p | 0 <= p < ADDR_BITS && p != d && masks[i][p]
        ensures x[p] == y[p]
      {
        FlipSpreads(masks, m, a, j, |masks|, p);
      }
    }
    ParityUpdate(x, masks[i], d, y[d]);
  }

  lemma {:induction false} LastOffender(masks: seq<Word>, i: nat, j: nat) returns (l: nat)
    requires MasksOk(masks) && i < j < |masks| && masks[i][Ctz(masks[j])]
    ensures j <= l < |masks| && masks[i][Ctz(masks[l])] && forall k :: l < k < |masks| ==> !masks[i][Ctz(masks[k])]
    decreases |masks| - j
  {
    if k :| j < k < |masks| && masks[i][Ctz(masks[k])] {
      l := LastOffender(masks, i, k);
    } else {
      l := j;
    }
  }

  /** b is below 2^(64 - n). */
  ghost predicate Below(b: Word, n: nat) {
    n <= |b| && b[|b| - n..] == Zeros(n)
  }

  ghost predicate AlwaysLands(masks: seq<Word>)
    requires MasksOk(masks)
  {
    forall m: Word, b: Word :: |m| == |masks| && |b| == ADDR_BITS && Below(b, |masks|) ==>
      Selector(masks, Added(masks, m, b)) == m
  }

  ghost predicate AlwaysUndoes(masks: seq<Word>)
    requires MasksOk(masks)
  {
    forall a: Word :: |a| == ADDR_BITS && |Removed(masks, a)| == ADDR_BITS ==>
      Added(masks, Selector(masks, a), Removed(masks, a)) == a
  }

  lemma AddedFlips(masks: seq<Word>, m: Word, b: Word, i: nat, l: nat)
    requires MasksOk(masks) && i < l < |masks| == |m| && |b| == ADDR_BITS && masks[i][Ctz(masks[l])]
    requires forall k :: l < k < |masks| ==> !masks[i][Ctz(masks[k])]
    ensures Selector(masks, Added(masks, m, b))[i] != Selector(masks, Added(masks, m[l := !m[l]], b))[i]
  {
    LsbListOk(masks);
    FlipChangesParity(masks, m, Spread(LsbList(masks), b, |masks|), i, l);
  }

  lemma LandsOnlyInOrder(masks: seq<Word>)
    requires MasksOk(masks) && !InOrder(masks)
    ensures !AlwaysLands(masks)
  {
    var i, j :| 0 <= i < j < |masks| && masks[i][Ctz(masks[j])];
    var l := LastOffender(masks, i, j);
    var m, b := Zeros(|masks|), Zeros(ADDR_BITS);
    AddedFlips(masks, m, b, i, l);
    RemovedTop(masks, b);
    assert Below(b, |masks|);
    hide Added, Removed, Below;
    assert Selector(masks, Added(masks, m, b)) != m || Selector(masks, Added(masks, m[l := !m[l]], b)) != m[l := !m[l]];
  }

  /** If re-insertion undoes every removal, it also lands every address in its stripe. */
  lemma UndoesMeansLands(masks: seq<Word>)
    requires MasksOk(masks) && AlwaysUndoes(masks)
    ensures AlwaysLands(masks)
  {
    forall m: Word, b: Word | |m| == |masks| && |b| == ADDR_BITS && Below(b, |masks|)
      ensures Selector(masks, Added(masks, m, b)) == m
    {
      AddedKeeps(masks, m, b);
      var w := Solve(masks, m, Added(masks, m, b), 0);
      assert Selector(masks, w) == m;
      RemovedTop(masks, w);
      assert Removed(masks, w) == b;
    }
  }

  /**
   For masks with distinct lowest bits: addIntlvBits undoes removeIntlvBits, and
   puts every offset into the stripe it is asked for, exactly if no mask contains the lowest bit of a
   mask with a higher index.
   */
  lemma RoundTripExactlyInOrder(masks: seq<Word>)
    requires MasksOk(masks)
    ensures AlwaysUndoes(masks) <==> InOrder(masks)
    ensures AlwaysLands(masks) <==> InOrder(masks)
  {
    if InOrder(masks) {
      forall m: Word, b: Word | |m| == |masks| && |b| == ADDR_BITS && Below(b, |masks|)
        ensures Selector(masks, Added(masks, m, b)) == m
      {
        AddLandsInStripe(masks, m, b);
      }
      forall a: Word | |a| == ADDR_BITS && |Removed(masks, a)| == ADDR_BITS
        ensures Added(masks, Selector(masks, a), Removed(masks, a)) == a
      {
        AddUndoesRemove(masks, a);
      }
    } else {
      LandsOnlyInOrder(masks);
      if AlwaysUndoes(masks) {
        UndoesMeansLands(masks);
      }
    }
  }

  // An instance out of order: the first mask, of bits 0 and 1, contains the lowest bit of the second, bit 1.

  function OutOfOrder(): seq<Word> {
    [OneBit(0)[1 := true], OneBit(1)]
  }

  lemma {:induction false} SpreadZeros(lsbs: seq<int>, i: nat)
    requires i <= |lsbs| && forall k :: 0 <= k < |lsbs| ==> 0 <= lsbs[k] < ADDR_BITS
    ensures Spread(lsbs, Zeros(ADDR_BITS), i) == Zeros(ADDR_BITS)
  {
    if i > 0 {
      SpreadZeros(lsbs, i - 1);
      AddOneOpens(Zeros(ADDR_BITS), lsbs[i - 1]);
    }
  }

  lemma ParityZeros(m: Word)
    requires |m| == ADDR_BITS
    ensures !Parity(Zeros(ADDR_BITS), m)
  {
    assert And(Zeros(ADDR_BITS), m) == Zeros(ADDR_BITS);
    PopCountZeros(ADDR_BITS);
  }

  lemma OutOfOrderOk()
    ensures MasksOk(OutOfOrder()) && Shallow(OutOfOrder()) && !InOrder(OutOfOrder())
  {
    assert Ctz(OutOfOrder()[0]) == 0 && Ctz(OutOfOrder()[1]) == 1;
  }

  lemma OutOfOrderAdds()
    ensures MasksOk(OutOfOrder()) && Added(OutOfOrder(), [false, true], Zeros(ADDR_BITS)) == OneBit(1)
  {
    var masks, m, zeros := OutOfOrder(), [false, true], Zeros(ADDR_BITS);
    OutOfOrderOk();
    LsbListOk(masks);
    SpreadZeros(LsbList(masks), 2);
    assert Ctz(masks[0]) == 0 && Ctz(masks[1]) == 1;
    ParityZeros(masks[0][0 := false]);
    ParityZeros(masks[1][1 := false]);
    assert Settled(masks, m, zeros, 0) == zeros;
    assert Settled(masks, m, zeros, 1) == zeros[0 := false] == zeros;
    assert Settled(masks, m, zeros, 2) == zeros[1 := true];
  }

  lemma LowParities(m: Word)
    requires |m| == ADDR_BITS
    ensures Parity(OneBit(1), m) == m[1] && Parity(OneBit(1)[0 := true], m) == (m[1] != m[0])
  {
    ParityZeros(m);
    ParityUpdate(Zeros(ADDR_BITS), m, 1, true);
    ParityUpdate(OneBit(1), m, 0, true);
  }

  lemma OutOfOrderSelects()
    ensures Selector(OutOfOrder(), OneBit(1)) == [true, true]
    ensures Selector(OutOfOrder(), OneBit(1)[0 := true]) == [false, true]
  {
    LowParities(OutOfOrder()[0]);
    LowParities(OutOfOrder()[1]);
    hide Parity;
  }

  lemma OutOfOrderRemoves()
    ensures Removed(OutOfOrder(), OneBit(1)[0 := true]) == Zeros(ADDR_BITS)
  {
    var masks := OutOfOrder();
    OutOfOrderOk();
    OutOfOrderAdds();
    assert Below(Zeros(ADDR_BITS), 2);
    assert Ctz(masks[0]) == 0 && Ctz(masks[0]) in Lsbs(masks);
    hide Added, Kept, MasksOk, Lsbs;
    RemoveUndoesAdd(masks, [false, true], Zeros(ADDR_BITS));
    KeptUpdate(OneBit(1), Lsbs(masks), 0, true);
  }

  /** Address 3 is in stripe 2 with offset 0, and from there addIntlvBits makes address 2, which is in stripe 3. */
  lemma OutOfOrderMisses()
    ensures MasksOk(OutOfOrder()) && Shallow(OutOfOrder())
    ensures var three := OneBit(1)[0 := true];
            && Selector(OutOfOrder(), three) == [false, true] && Removed(OutOfOrder(), three) == Zeros(ADDR_BITS)
            && Added(OutOfOrder(), [false, true], Zeros(ADDR_BITS)) == OneBit(1) != three
            && Selector(OutOfOrder(), OneBit(1)) == [true, true]
  {
    hide Added, Removed, Selector, MasksOk, Shallow;
    OutOfOrderOk();
    OutOfOrderAdds();
    OutOfOrderSelects();
    OutOfOrderRemoves();
    assert OneBit(1)[0 := true][0] && !OneBit(1)[0];
  }
}
