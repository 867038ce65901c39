/** The constructors of AddrRange that check their arguments (base/addr_range.hh). */
module RangeConstructors {
  import opened AddrRanges
  import opened Interleaving
  import opened Offsets
  import opened Options
  import opened Words

  /** What the merging constructor checks of two or more ranges; its match counter is a uint8_t. */
  ghost predicate Mergeable(ranges: seq<AddrRange>) {
    && |ranges| > 0 && |ranges| == Pow2(|ranges[0].masks|)
    && forall i :: 0 <= i < |ranges| ==> ranges[0].MergesWith(ranges[i]) && ranges[i].intlvMatch == i % 256
  }

  method Merge(ranges: seq<AddrRange>) returns (r: Result<AddrRange>)
    ensures |ranges| == 0 ==> r == Ok(AddrRange(1, 0, [], 0))
    ensures |ranges| == 1 ==> r == Ok(ranges[0])
    ensures |ranges| > 1 ==>
              r == if Mergeable(ranges) then Ok(AddrRange(ranges[0].start, ranges[0].end, [], 0)) else Panic
  {
    var start, end, masks, intlvMatch := 1, 0, [], 0;
    if |ranges| > 0 {
      start, end, masks, intlvMatch := ranges[0].start, ranges[0].end, ranges[0].masks, ranges[0].intlvMatch;
    }
    if |ranges| > 1 {
      if |ranges| != Pow2(|masks|) {
        return Panic;
      }
      var count := 0;
      for i := 0 to |ranges|
        invariant count == i % 256
        invariant forall k :: 0 <= k < i ==> ranges[0].MergesWith(ranges[k]) && ranges[k].intlvMatch == k % 256
      {
        if !ranges[0].MergesWith(ranges[i]) {
          return Panic;
        }
        if ranges[i].intlvMatch != count {
          return Panic;
        }
        count := (count + 1) % 256;
      }
      masks, intlvMatch := [], 0;
    }
    r := Ok(AddrRange(start, end, masks, intlvMatch));
  }

  ghost predicate InSome(ranges: seq<AddrRange>, a: nat)
    requires forall i :: 0 <= i < |ranges| ==> ranges[i].Typed()
  {
    exists i :: 0 <= i < |ranges| && ranges[i].Contains(a)
  }

  /** The 2^n ranges that differ only in their match value 0 .. 2^n - 1 partition [start, end). */
  lemma StripesPartition(r: AddrRange, a: nat, m: nat)
    requires r.Typed() && r.InBounds(a)
    ensures r.Sel(a) < Pow2(|r.masks|)
    ensures r.(intlvMatch := m).Contains(a) <==> m == r.Sel(a)
  {
    ValBound(Selector(r.masks, Bits(a, ADDR_BITS)));
  }

  function Stripes(r: AddrRange): seq<AddrRange> {
    seq(Pow2(|r.masks|), i requires 0 <= i < Pow2(|r.masks|) => r.(intlvMatch := i))
  }

  /** Up to 8 masks, the constructor accepts all stripes of a range in the order of their match values. */
  lemma StripesMergeable(r: AddrRange)
    requires 1 <= |r.masks| <= 8
    ensures Mergeable(Stripes(r))
  {
    Pow2Monotone(|r.masks|, 8);
    Pow2Monotone(0, |r.masks|);
    assert Pow2(8) == 256;
  }

  /** Up to 8 masks, a merged range contains exactly what its parts contain. */
  lemma MergedIsUnion(ranges: seq<AddrRange>, a: nat)
    requires |ranges| > 1 && Mergeable(ranges) && |ranges[0].masks| <= 8 && ranges[0].Typed()
    requires forall i :: 0 <= i < |ranges| ==> ranges[i].Typed()
    ensures AddrRange(ranges[0].start, ranges[0].end, [], 0).Contains(a) <==> InSome(ranges, a)
  {
    var r := ranges[0];
    if r.InBounds(a) {
      var m := r.Sel(a);
      StripesPartition(r, a, m);
      Pow2Monotone(|r.masks|, 8);
      assert Pow2(8) == 256;
      assert r.MergesWith(ranges[m]) && ranges[m].intlvMatch == m % 256 == m;
      assert ranges[m].Contains(a);
    }
    assert AddrRange(r.start, r.end, [], 0).Contains(a) <==> r.InBounds(a);
  }

  /** With 9 masks or more the counter wraps: the constructor accepts lists that leave stripes out. */
  lemma MergedMissesStripes(ranges: seq<AddrRange>, h: nat) returns (a: nat)
    requires |ranges| > 1 && Mergeable(ranges) && |ranges[0].masks| > 8
    requires forall i :: 0 <= i < |ranges| ==> ranges[i].Typed()
    requires Aligned(ranges[0], h) && ranges[0].start < ranges[0].end
    ensures AddrRange(ranges[0].start, ranges[0].end, [], 0).Contains(a) && !InSome(ranges, a)
  {
    var r := ranges[0].(intlvMatch := 256);
    Pow2Monotone(9, |r.masks|);
    assert Pow2(9) == 512;
    SizePositive(r, h);
    a := OffsetReached(r, h, 0);
    StripesPartition(ranges[0], a, 0);
  }

  lemma SizePositive(r: AddrRange, h: nat)
    requires Aligned(r, h) && r.start < r.end
    ensures r.Size() > 0
  {
    OffsetBelowSize(r, h, r.start);
  }

  /** An accepted list covers the stripes that the counter can name: the first 256. */
  lemma MergedCovers(ranges: seq<AddrRange>, a: nat)
    requires |ranges| > 1 && Mergeable(ranges) && (forall i :: 0 <= i < |ranges| ==> ranges[i].Typed())
    ensures InSome(ranges, a) <==> ranges[0].InBounds(a) && ranges[0].Sel(a) < 256
  {
    var r, m := ranges[0], ranges[0].Sel(a);
    hide AddrRange.Sel;
    StripeNumberFits(r, a);
    if r.InBounds(a) && m < 256 {
      assert ranges[m].Contains(a);
    }
  }

  lemma StripeNumberFits(r: AddrRange, a: nat)
    requires r.Typed()
    ensures r.Sel(a) < Pow2(|r.masks|)
  {
    ValBound(Selector(r.masks, Bits(a, ADDR_BITS)));
  }

  /**
   Whatever its bounds and masks, an accepted list becomes its exact union if and only if no address
   within the bounds selects a stripe from 256 on.
   */
  lemma MergeIsExact(ranges: seq<AddrRange>)
    requires |ranges| > 1 && Mergeable(ranges) && ranges[0].Typed() && (forall i :: 0 <= i < |ranges| ==> ranges[i].Typed())
    ensures (forall a :: AddrRange(ranges[0].start, ranges[0].end, [], 0).Contains(a) <==> InSome(ranges, a))
            <==> forall a :: ranges[0].InBounds(a) ==> ranges[0].Sel(a) < 256
  {
    forall a: nat
      ensures InSome(ranges, a) <==> ranges[0].InBounds(a) && ranges[0].Sel(a) < 256
      ensures AddrRange(ranges[0].start, ranges[0].end, [], 0).Contains(a) <==> ranges[0].InBounds(a)
    {
      MergedCovers(ranges, a);
      PlainContains(ranges[0], a);
    }
  }

  lemma PlainContains(r: AddrRange, a: nat)
    requires r.Typed()
    ensures AddrRange(r.start, r.end, [], 0).Contains(a) <==> r.InBounds(a)
  {
    assert Selector([], Bits(a, ADDR_BITS)) == [];
  }

  /** With a non-empty span between bounds aligned to the lowest mask bits, that is if and only if there are at most 8 masks. */
  lemma MergeIsExactUpToEightMasks(ranges: seq<AddrRange>, h: nat)
    requires |ranges| > 1 && Mergeable(ranges) && (forall i :: 0 <= i < |ranges| ==> ranges[i].Typed())
    requires Aligned(ranges[0], h) && ranges[0].start < ranges[0].end
    ensures (forall a :: AddrRange(ranges[0].start, ranges[0].end, [], 0).Contains(a) <==> InSome(ranges, a))
            <==> |ranges[0].masks| <= 8
  {
    if |ranges[0].masks| <= 8 {
      forall a
        ensures AddrRange(ranges[0].start, ranges[0].end, [], 0).Contains(a) <==> InSome(ranges, a)
      {
        MergedIsUnion(ranges, a);
      }
    } else {
      var a := MergedMissesStripes(ranges, h);
      assert AddrRange(ranges[0].start, ranges[0].end, [], 0).Contains(a) && !InSome(ranges, a);
    }
  }

  /** Nine masks, one for each of the lowest nine bits, and 512 ranges whose match values run twice from 0 to 255. */
  function NineBits(): seq<Word> {
    seq(9, i requires 0 <= i < 9 => OneBit(i))
  }

  function TwiceOver(): seq<AddrRange> {
    seq(512, i => AddrRange(0, 512, NineBits(), i % 256))
  }

  lemma {:induction false} LowBits(a: nat, n: nat, k: nat)
    requires k <= n
    ensures Bits(a, n)[..k] == Bits(a, k)
  {
    if k > 0 {
      LowBits(a / 2, n - 1, k - 1);
    }
  }

  lemma NineBitsSelect(a: nat, n: nat)
    requires n == 9 && a < Pow2(n)
    ensures AddrRange(0, 512, NineBits(), 0).Typed() && AddrRange(0, 512, NineBits(), 0).Sel(a) == a
  {
    var w := Bits(a, ADDR_BITS);
    forall i | 0 <= i < n
      ensures Parity(w, OneBit(i)) == w[i]
    {
      ParityOneBit(w, i);
    }
    assert Selector(NineBits(), w) == w[..n];
    LowBits(a, ADDR_BITS, n);
    ValOfBits(a, n);
  }

  /** The list is accepted, the merged range contains address 256, and no range of the list does. */
  lemma NineMasksLoseStripes()
    ensures Mergeable(TwiceOver()) && (forall i :: 0 <= i < 512 ==> TwiceOver()[i].Typed())
    ensures Aligned(TwiceOver()[0], 9)
    ensures AddrRange(0, 512, [], 0).Contains(256) && !InSome(TwiceOver(), 256)
  {
    assert Pow2(9) == 512;
    NineBitsSelect(256, 9);
    forall i | 0 <= i < 9
      ensures Ctz(NineBits()[i]) == i
    {
      CtzIs(OneBit(i), i);
    }
    forall i | 0 <= i < 512
      ensures !TwiceOver()[i].Contains(256)
    {
      assert TwiceOver()[i].Sel(256) == AddrRange(0, 512, NineBits(), 0).Sel(256);
    }
  }

  // The legacy constructor: a field of n interleaving bits, hashed with a field of n other bits.

  /** Where the source defines its shifts: both fields lie inside an address. */
  predicate FieldsFit(hi: nat, xorHi: nat, n: nat) {
    n < ADDR_BITS && (n > 0 ==> n <= hi + 1 <= ADDR_BITS && (xorHi > 0 ==> n <= xorHi + 1 <= ADDR_BITS))
  }

  predicate LegacyOk(hi: nat, xorHi: nat, n: nat, intlvMatch: nat) {
    n > 0 ==> intlvMatch < Pow2(n) && (xorHi > 0 ==> xorHi >= hi + n || hi >= xorHi + n)
  }

  /** Bit k is in the field of n bits whose highest is hi. */
  predicate InField(k: nat, hi: nat, n: nat) {
    hi < k + n && k <= hi
  }

  /** The arguments are accepted exactly if the match value has at most n bits and the two fields share no bit. */
  lemma LegacyOkMeans(hi: nat, xorHi: nat, n: nat, intlvMatch: nat)
    requires FieldsFit(hi, xorHi, n) && n > 0
    ensures LegacyOk(hi, xorHi, n, intlvMatch) <==>
              && (exists w: Word :: |w| == n && Val(w) == intlvMatch)
              && (xorHi == 0 || forall k: nat :: !(InField(k, hi, n) && InField(k, xorHi, n)))
  {
    if intlvMatch < Pow2(n) {
      ValOfBits(intlvMatch, n);
      assert |Bits(intlvMatch, n)| == n;
    }
    forall w: Word | |w| == n
      ensures Val(w) < Pow2(n)
    {
      ValBound(w);
    }
    var k := if hi < xorHi then hi else xorHi;
    assert xorHi < hi + n && hi < xorHi + n ==> InField(k, hi, n) && InField(k, xorHi, n);
  }

  function LegacyMask(hi: nat, xorHi: nat, n: nat, j: nat): (m: Word)
    requires FieldsFit(hi, xorHi, n) && j < n
    ensures |m| == ADDR_BITS
  {
    var low := OneBit(hi - n + 1 + j);
    if xorHi > 0 then Or(low, OneBit(xorHi - n + 1 + j)) else low
  }

  method Legacy(start: nat, end: nat, hi: nat, xorHi: nat, n: nat, intlvMatch: nat) returns (r: Result<AddrRange>)
    requires FieldsFit(hi, xorHi, n)
    ensures r.Ok? <==> LegacyOk(hi, xorHi, n, intlvMatch)
    ensures r.Ok? ==> r.value.start == start && r.value.end == end && r.value.intlvMatch == intlvMatch
    ensures r.Ok? ==> |r.value.masks| == n && forall j :: 0 <= j < n ==> r.value.masks[j] == LegacyMask(hi, xorHi, n, j)
  {
    if n != 0 && intlvMatch >= Pow2(n) {
      return Panic;
    }
    if n != 0 && xorHi != 0 {
      if xorHi == hi {
        return Panic;
      } else if xorHi > hi {
        if xorHi - hi < n {
          return Panic;
        }
      } else {
        if hi - xorHi < n {
          return Panic;
        }
      }
    }
    var masks := seq(n, _ => Zeros(ADDR_BITS));
    for i := 0 to n
      invariant |masks| == n
      invariant forall j :: n - i <= j < n ==> masks[j] == LegacyMask(hi, xorHi, n, j)
    {
      var mask := OneBit(hi - i);
      if xorHi != 0 {
        mask := Or(mask, OneBit(xorHi - i));
      }
      masks := masks[n - i - 1 := mask];
    }
    r := Ok(AddrRange(start, end, masks, intlvMatch));
  }

  /** The bit field a[hi : hi - n + 1]. */
  function Field(a: Word, hi: nat, n: nat): Word
    requires n <= hi + 1 <= |a|
  {
    a[hi - n + 1..hi + 1]
  }

  lemma LegacyParity(a: Word, hi: nat, xorHi: nat, n: nat, j: nat)
    requires FieldsFit(hi, xorHi, n) && j < n && |a| == ADDR_BITS
    requires xorHi > 0 ==> xorHi != hi
    ensures Parity(a, LegacyMask(hi, xorHi, n, j)) ==
            (a[hi - n + 1 + j] != (xorHi > 0 && a[xorHi - n + 1 + j]))
  {
    var p := hi - n + 1 + j;
    var z := Zeros(ADDR_BITS);
    PopCountZeros(ADDR_BITS);
    PopCountUpdate(z, p, a[p]);
    if xorHi > 0 {
      var q := xorHi - n + 1 + j;
      PopCountUpdate(z[p := a[p]], q, a[q]);
      assert And(a, LegacyMask(hi, xorHi, n, j)) == z[p := a[p]][q := a[q]];
    } else {
      assert And(a, LegacyMask(hi, xorHi, n, j)) == z[p := a[p]];
    }
  }

  /** The interleaving field, XORed with the hash field when there is one. */
  function HashedField(a: Word, hi: nat, xorHi: nat, n: nat): Word
    requires FieldsFit(hi, xorHi, n) && n > 0 && |a| == ADDR_BITS
  {
    if xorHi > 0 then Xor(Field(a, hi, n), Field(a, xorHi, n)) else Field(a, hi, n)
  }

  lemma LegacySelector(a: Word, masks: seq<Word>, hi: nat, xorHi: nat, n: nat)
    requires FieldsFit(hi, xorHi, n) && |a| == ADDR_BITS && n > 0 && (xorHi > 0 ==> xorHi != hi)
    requires |masks| == n && forall j :: 0 <= j < n ==> masks[j] == LegacyMask(hi, xorHi, n, j)
    ensures (forall j :: 0 <= j < n ==> |masks[j]| == ADDR_BITS)
    ensures Selector(masks, a) == HashedField(a, hi, xorHi, n)
  {
    var h := HashedField(a, hi, xorHi, n);
    forall j | 0 <= j < n
      ensures Parity(a, masks[j]) == h[j]
    {
      LegacyParity(a, hi, xorHi, n, j);
      assert Field(a, hi, n)[j] == a[hi - n + 1 + j];
    }
  }

  /** A range that the legacy constructor builds contains what its documented formula says. */
  lemma LegacyContains(r: AddrRange, a: nat, hi: nat, xorHi: nat, n: nat)
    requires FieldsFit(hi, xorHi, n) && n > 0 && LegacyOk(hi, xorHi, n, r.intlvMatch) && r.Typed()
    requires |r.masks| == n && forall j :: 0 <= j < n ==> r.masks[j] == LegacyMask(hi, xorHi, n, j)
    ensures r.Contains(a) <==>
              r.start <= a < r.end && Val(HashedField(Bits(a, ADDR_BITS), hi, xorHi, n)) == r.intlvMatch
  {
    LegacySelector(Bits(a, ADDR_BITS), r.masks, hi, xorHi, n);
  }

  /** No two masks share a bit, so they have distinct lowest bits and come in any order. */
  lemma LegacyMasksDisjoint(masks: seq<Word>, hi: nat, xorHi: nat, n: nat, intlvMatch: nat)
    requires FieldsFit(hi, xorHi, n) && LegacyOk(hi, xorHi, n, intlvMatch)
    requires |masks| == n && forall j :: 0 <= j < n ==> masks[j] == LegacyMask(hi, xorHi, n, j)
    ensures forall i, j, k :: 0 <= i < j < n && 0 <= k < ADDR_BITS ==>
              |masks[i]| == |masks[j]| == ADDR_BITS && !(masks[i][k] && masks[j][k])
    ensures MasksOk(masks) && InOrder(masks)
  {
    forall i, j, k | 0 <= i < j < n && 0 <= k < ADDR_BITS
      ensures |masks[i]| == |masks[j]| == ADDR_BITS && !(masks[i][k] && masks[j][k])
    {
      LegacyMaskBit(hi, xorHi, n, i, k);
      LegacyMaskBit(hi, xorHi, n, j, k);
    }
    forall i | 0 <= i < n
      ensures |masks[i]| == ADDR_BITS && masks[i][hi - n + 1 + i]
    {
      LegacyMaskBit(hi, xorHi, n, i, hi - n + 1 + i);
    }
    hide LegacyMask;
    DisjointMasksInOrder(masks, seq(n, i requires 0 <= i < n => hi - n + 1 + i));
  }

  lemma LegacyMaskBit(hi: nat, xorHi: nat, n: nat, j: nat, k: nat)
    requires FieldsFit(hi, xorHi, n) && j < n && k < ADDR_BITS
    ensures LegacyMask(hi, xorHi, n, j)[k] <==> k == hi - n + 1 + j || (xorHi > 0 && k == xorHi - n + 1 + j)
  {
  }

  /** Masks without a common bit, each with some bit set, have distinct lowest bits and are in order. */
  lemma DisjointMasksInOrder(masks: seq<Word>, bit: seq<nat>)
    requires |bit| == |masks|
    requires forall i :: 0 <= i < |masks| ==> |masks[i]| == ADDR_BITS && bit[i] < ADDR_BITS && masks[i][bit[i]]
    requires forall i, j, k :: 0 <= i < j < |masks| && 0 <= k < ADDR_BITS ==> !(masks[i][k] && masks[j][k])
    ensures MasksOk(masks) && InOrder(masks)
  {
    forall i | 0 <= i < |masks|
      ensures Ctz(masks[i]) < ADDR_BITS && masks[i][Ctz(masks[i])]
    {
      assert masks[i][bit[i]];
    }
  }
}
