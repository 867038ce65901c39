/** AddrRange::getOffset: the flat offset of an address in its stripe (base/addr_range.hh). */
module Offsets {
  import opened AddrRanges
  import opened Arith
  import opened Interleaving
  import opened Words

  lemma ValRemoved(masks: seq<Word>, a: Word)
    ensures Val(Removed(masks, a)) == Val(Kept(a, Lsbs(masks), 0))
  {
    ValAppend(Kept(a, Lsbs(masks), 0), Zeros(|masks|));
    ValZeros(|masks|);
  }

  ghost function Offset(r: AddrRange, a: nat): int {
    if !r.InBounds(a) then MAX_ADDR
    else if r.Interleaved() then
      (Val(Removed(r.masks, Bits(a, ADDR_BITS))) - Val(Removed(r.masks, Bits(r.start, ADDR_BITS)))) % TWO64
    else a - r.start
  }

  method GetOffset(r: AddrRange, a: nat) returns (o: int)
    requires r.Typed() && MasksOk(r.masks) && a < TWO64
    ensures o == Offset(r, a)
  {
    var inRange := a >= r.start && a < r.end;
    if !inRange {
      return MAX_ADDR;
    }
    if r.Interleaved() {
      var x := RemoveIntlvBits(r.masks, Bits(a, ADDR_BITS));
      var y := RemoveIntlvBits(r.masks, Bits(r.start, ADDR_BITS));
      o := (Val(x) - Val(y)) % TWO64;
    } else {
      o := a - r.start;
    }
  }

  lemma {:induction false} ZeroValue(w: Word)
    requires Val(w) == 0
    ensures w == Zeros(|w|)
  {
    if w != [] {
      ZeroValue(w[1..]);
      assert Zeros(|w|) == [false] + Zeros(|w| - 1);
    }
  }

  lemma {:induction false} KeptZeros(n: nat, drop: set<nat>, base: nat)
    ensures Val(Kept(Zeros(n), drop, base)) == 0
  {
    if n > 0 {
      KeptZeros(n - 1, drop, base + 1);
      assert Zeros(n)[1..] == Zeros(n - 1);
      ValOfFirst(Zeros(n), drop, base);
    }
  }

  /** Above every mask bit an address keeps its bits; below, the removed address has |masks| bits fewer. */
  lemma RemovedInParts(masks: seq<Word>, a: nat, h: nat) returns (low: nat)
    requires MasksOk(masks) && a < TWO64 && h <= ADDR_BITS && forall i :: 0 <= i < |masks| ==> Ctz(masks[i]) < h
    ensures |masks| <= h && low < Pow2(h - |masks|)
    ensures Val(Removed(masks, Bits(a, ADDR_BITS))) == low + Pow2(h - |masks|) * Over(a, Pow2(h))
    ensures a % Pow2(h) == 0 ==> low == 0
  {
    var w, drop := Bits(a, ADDR_BITS), Lsbs(masks);
    ValRemoved(masks, w);
    RemovedTop(masks, w);
    KeptUpTo(w, drop, h, ADDR_BITS);
    hide Val, Bits, Kept, Removed, Pow2, MasksOk, Over;
    assert w[..ADDR_BITS] == w && w[h..ADDR_BITS] == w[h..];
    var k := Kept(w[..h], drop, 0);
    low := Val(k);
    ValBound(k);
    ValAppend(k, w[h..]);
    WordInParts(a, h);
    if a % Pow2(h) == 0 {
      ZeroValue(w[..h]);
      KeptZeros(h, drop, 0);
    }
  }

  lemma WordInParts(a: nat, h: nat)
    requires a < TWO64 && h <= ADDR_BITS
    ensures var w := Bits(a, ADDR_BITS); Val(w[h..]) == Over(a, Pow2(h)) && Val(w[..h]) == a % Pow2(h)
  {
    var w := Bits(a, ADDR_BITS);
    hide Val, Bits;
    Pow2At64(ADDR_BITS);
    ValOfBits(a, ADDR_BITS);
    assert w == w[..h] + w[h..];
    ValAppend(w[..h], w[h..]);
    ValBound(w[..h]);
    DivMod(Pow2(h), Val(w[h..]), Val(w[..h]));
  }

  lemma MasksFit(masks: seq<Word>, h: nat)
    requires MasksOk(masks) && h <= ADDR_BITS && forall i :: 0 <= i < |masks| ==> Ctz(masks[i]) < h
    ensures |masks| <= h
  {
    var low := RemovedInParts(masks, 0, h);
  }

  /** The bounds are multiples of 2^h, and h lies above the lowest bit of every mask. */
  ghost predicate Aligned(r: AddrRange, h: nat) {
    && r.Typed() && MasksOk(r.masks) && r.Interleaved() && r.start <= r.end && h <= ADDR_BITS
    && (forall i :: 0 <= i < |r.masks| ==> Ctz(r.masks[i]) < h)
    && r.start % Pow2(h) == 0 && r.end % Pow2(h) == 0
    && r.intlvMatch < Pow2(|r.masks|)
  }

  lemma MulDistributes(p: int, x: int, y: int)
    ensures p * (x - y) == p * x - p * y
  {
  }

  lemma SizeOfBlocks(big: nat, n: nat, p: nat, lo: nat, hi: nat)
    requires big > 0 && n > 0 && big == n * p && lo % big == 0 && hi % big == 0 && lo <= hi
    ensures lo / big <= hi / big && (hi - lo) / n == p * (hi / big - lo / big)
  {
    var s, e := lo / big, hi / big;
    if e < s {
      Apart(big, e, s);
    }
    var x := p * (e - s);
    assert n * x == big * (e - s) == hi - lo;
    DivMod(n, x, 0);
  }

  lemma SizeInParts(r: AddrRange, h: nat)
    requires Aligned(r, h)
    ensures |r.masks| <= h && r.end / Pow2(h) >= r.start / Pow2(h)
    ensures r.Size() == Pow2(h - |r.masks|) * (r.end / Pow2(h) - r.start / Pow2(h))
  {
    MasksFit(r.masks, h);
    Pow2Add(|r.masks|, h - |r.masks|);
    assert (r.end - r.start) % TWO64 == r.end - r.start;
    SizeOfBlocks(Pow2(h), Pow2(|r.masks|), Pow2(h - |r.masks|), r.start, r.end);
  }

  lemma OffsetIs(r: AddrRange, a: nat, p: nat, low: nat, x: nat, s: nat)
    requires r.Interleaved() && r.InBounds(a) && s <= x
    requires Val(Removed(r.masks, Bits(a, ADDR_BITS))) == low + p * x < TWO64
    requires Val(Removed(r.masks, Bits(r.start, ADDR_BITS))) == p * s
    ensures Offset(r, a) == low + p * x - p * s == low + p * (x - s)
  {
    hide Val, Bits, Removed;
    OffsetOfBlocks(p, low, x, s);
  }

  /** Between aligned bounds an offset is the block number and a place in the block. */
  lemma OffsetInParts(r: AddrRange, h: nat, a: nat) returns (low: nat)
    requires Aligned(r, h) && r.InBounds(a)
    ensures |r.masks| <= h && low < Pow2(h - |r.masks|) && Over(r.start, Pow2(h)) <= Over(a, Pow2(h)) < Over(r.end, Pow2(h))
    ensures Offset(r, a) == low + Pow2(h - |r.masks|) * (Over(a, Pow2(h)) - Over(r.start, Pow2(h)))
    ensures Offset(r, a) == Val(Removed(r.masks, Bits(a, ADDR_BITS))) - Val(Removed(r.masks, Bits(r.start, ADDR_BITS)))
    ensures Val(Removed(r.masks, Bits(r.start, ADDR_BITS))) == Pow2(h - |r.masks|) * Over(r.start, Pow2(h))
  {
    low := RemovedInParts(r.masks, a, h);
    var zero := RemovedInParts(r.masks, r.start, h);
    BlockOrder(Pow2(h), r.start, a, r.end);
    hide Over, Removed, Val, Bits, Pow2, MasksOk, Offset;
    RemovedFits(r.masks, a);
    OffsetIs(r, a, Pow2(h - |r.masks|), low, Over(a, Pow2(h)), Over(r.start, Pow2(h)));
  }

  lemma OffsetOfBlocks(p: nat, low: nat, x: nat, s: nat)
    requires s <= x && low + p * x < TWO64
    ensures (low + p * x - p * s) % TWO64 == low + p * x - p * s == low + p * (x - s)
  {
    MulDistributes(p, x, s);
    MulMonotone(p, s, x);
  }

  lemma BlockOrder(p: nat, lo: nat, a: nat, hi: nat)
    requires p > 0 && lo % p == 0 && hi % p == 0 && lo <= a < hi
    ensures Over(lo, p) <= Over(a, p) < Over(hi, p)
  {
    if a / p < lo / p {
      Apart(p, a / p, lo / p);
    }
    if hi / p <= a / p && hi / p != a / p {
      Apart(p, hi / p, a / p);
    }
  }

  lemma RemovedFits(masks: seq<Word>, a: nat)
    requires MasksOk(masks)
    ensures Val(Removed(masks, Bits(a, ADDR_BITS))) < TWO64
  {
    RemovedTop(masks, Bits(a, ADDR_BITS));
    ValBound(Removed(masks, Bits(a, ADDR_BITS)));
    Pow2At64(ADDR_BITS);
  }

  /** Offsets of the addresses of a stripe lie in [0, size()) ... */
  lemma OffsetBelowSize(r: AddrRange, h: nat, a: nat)
    requires Aligned(r, h) && r.InBounds(a)
    ensures 0 <= Offset(r, a) < r.Size()
  {
    SizeInParts(r, h);
    var low := OffsetInParts(r, h, a);
    var p, s := Pow2(h - |r.masks|), r.start / Pow2(h);
    if a / Pow2(h) + 1 < r.end / Pow2(h) {
      Apart(p, a / Pow2(h) - s + 1, r.end / Pow2(h) - s);
    }
    assert p * (a / Pow2(h) - s + 1) == p * (a / Pow2(h) - s) + p;
  }

  /** ... increase strictly ... */
  lemma OffsetIncreases(r: AddrRange, h: nat, a: nat, b: nat)
    requires Aligned(r, h) && r.Contains(a) && r.Contains(b) && a < b
    ensures Offset(r, a) < Offset(r, b)
  {
    var la := OffsetInParts(r, h, a);
    var lb := OffsetInParts(r, h, b);
    StripeOrder(r, a, b);
  }

  /** In a stripe, removal of the mask bits is strictly increasing. */
  lemma StripeOrder(r: AddrRange, a: nat, b: nat)
    requires r.Typed() && MasksOk(r.masks) && a < b < TWO64 && r.Sel(a) == r.Sel(b)
    ensures Val(Removed(r.masks, Bits(a, ADDR_BITS))) < Val(Removed(r.masks, Bits(b, ADDR_BITS)))
  {
    var x, y := Bits(a, ADDR_BITS), Bits(b, ADDR_BITS);
    Pow2At64(ADDR_BITS);
    ValOfBits(a, ADDR_BITS);
    ValOfBits(b, ADDR_BITS);
    BitsOfVal(Selector(r.masks, x));
    BitsOfVal(Selector(r.masks, y));
    DroppingKeepsOrder(r.masks, x, y);
    ValRemoved(r.masks, x);
    ValRemoved(r.masks, y);
  }

  lemma OffsetFits(r: AddrRange, h: nat)
    requires Aligned(r, h) && |r.masks| <= h
    ensures Pow2(h - |r.masks|) * (r.end / Pow2(h)) <= Pow2(ADDR_BITS - |r.masks|)
  {
    var n := |r.masks|;
    Pow2At64(ADDR_BITS);
    Pow2Add(h, ADDR_BITS - h);
    Pow2Add(h - n, ADDR_BITS - h);
    QuotientFits(Pow2(h), Pow2(ADDR_BITS - h), r.end);
    MulMonotone(Pow2(h - n), r.end / Pow2(h), Pow2(ADDR_BITS - h));
  }

  lemma QuotientFits(p: nat, q: nat, x: nat)
    requires p > 0 && x <= p * q
    ensures x / p <= q
  {
    if x / p > q {
      Apart(p, q, x / p);
    }
  }

  lemma BlockOfOffset(p: nat, low: nat, x: nat, y: nat, s: nat, e: nat)
    requires low < p && low + p * x == y + p * s && y + p * s < p * e
    ensures s <= x < e
  {
    if x < s {
      Apart(p, x, s);
    }
    if e < x {
      Apart(p, e, x);
    }
  }

  lemma InBlocks(big: nat, p: nat, lo: nat, hi: nat, a: nat, low: nat, y: nat)
    requires big > 0 && lo % big == 0 && hi % big == 0 && low < p
    requires low + p * (a / big) == y + p * (lo / big) < p * (hi / big)
    ensures lo <= a < hi
  {
    BlockOfOffset(p, low, a / big, y, lo / big, hi / big);
    if lo / big < a / big {
      Apart(big, lo / big, a / big);
    }
    Apart(big, a / big, hi / big);
  }

  lemma SelectorIs(masks: seq<Word>, w: Word, m: Word)
    requires |m| == |masks| && forall i :: 0 <= i < |masks| ==> |masks[i]| == |w| && Parity(w, masks[i]) == m[i]
    ensures Selector(masks, w) == m
  {
  }

  lemma WordIs(r: AddrRange, w: Word, z: nat)
    requires r.Typed() && |w| == ADDR_BITS && |r.masks| <= ADDR_BITS
    requires r.intlvMatch < Pow2(|r.masks|) && z < Pow2(ADDR_BITS - |r.masks|)
    requires Selector(r.masks, w) == Bits(r.intlvMatch, |r.masks|)
    requires Kept(w, Lsbs(r.masks), 0) == Bits(z, ADDR_BITS - |r.masks|)
    ensures Val(w) < TWO64 && r.Sel(Val(w)) == r.intlvMatch && Val(Removed(r.masks, Bits(Val(w), ADDR_BITS))) == z
  {
    hide Bits, Val, Kept, Removed, Selector, Pow2;
    ValOfBits(r.intlvMatch, |r.masks|);
    ValOfBits(z, ADDR_BITS - |r.masks|);
    ValRemoved(r.masks, w);
    BitsOfVal(w);
    ValBound(w);
    Pow2At64(ADDR_BITS);
  }

  /** Some word of r's stripe keeps exactly the bits of z. */
  lemma WordWithKept(r: AddrRange, z: nat) returns (a: nat)
    requires r.Typed() && MasksOk(r.masks) && r.intlvMatch < Pow2(|r.masks|)
    requires |r.masks| <= ADDR_BITS && z < Pow2(ADDR_BITS - |r.masks|)
    ensures a < TWO64 && r.Sel(a) == r.intlvMatch && Val(Removed(r.masks, Bits(a, ADDR_BITS))) == z
  {
    var n := |r.masks|;
    var m := Bits(r.intlvMatch, n);
    var b := Bits(z, ADDR_BITS - n) + Zeros(n);
    AddedKeeps(r.masks, m, b);
    assert b[..ADDR_BITS - n] == Bits(z, ADDR_BITS - n);
    var w := Solve(r.masks, m, Added(r.masks, m, b), 0);
    SelectorIs(r.masks, w, m);
    hide Bits, Val, Kept, Removed, Added, Selector, MasksOk;
    WordIs(r, w, z);
    a := Val(w);
  }

  lemma Target(p: nat, s: nat, e: nat, y: nat) returns (z: nat)
    requires s <= e && y < p * (e - s)
    ensures z == y + p * s && z < p * e
  {
    MulDistributes(p, e, s);
    MulMonotone(p, 0, s);
    z := y + p * s;
  }

  lemma TargetInBounds(r: AddrRange, h: nat, a: nat, y: nat)
    requires Aligned(r, h) && a < TWO64 && |r.masks| <= h
    requires Val(Removed(r.masks, Bits(a, ADDR_BITS))) == y + Pow2(h - |r.masks|) * (r.start / Pow2(h))
    requires y + Pow2(h - |r.masks|) * (r.start / Pow2(h)) < Pow2(h - |r.masks|) * (r.end / Pow2(h))
    ensures r.InBounds(a)
  {
    var low := RemovedInParts(r.masks, a, h);
    InBlocks(Pow2(h), Pow2(h - |r.masks|), r.start, r.end, a, low, y);
  }

  /** ... and every number below size() is one of them. */
  lemma OffsetReached(r: AddrRange, h: nat, y: nat) returns (a: nat)
    requires Aligned(r, h) && y < r.Size()
    ensures r.Contains(a) && Offset(r, a) == y
  {
    SizeInParts(r, h);
    var z := Target(Pow2(h - |r.masks|), r.start / Pow2(h), r.end / Pow2(h), y);
    OffsetFits(r, h);
    a := WordWithKept(r, z);
    TargetInBounds(r, h, a, y);
    var low := OffsetInParts(r, h, a);
  }
}
