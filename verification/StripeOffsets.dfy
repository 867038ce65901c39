/**
 The offsets of a stripe for any bounds (base/addr_range.hh).  The addresses of a stripe are numbered
 by their kept bits; the range takes a run of these numbers, and getOffset subtracts the number of its
 start, which need not be the first of the run.
 */
module StripeOffsets {
  import opened AddrRanges
  import opened Arith
  import opened Interleaving
  import opened Offsets
  import opened Words

  /** An interleaved range whose match value fits its masks; its bounds may be anything. */
  ghost predicate Striped(r: AddrRange) {
    && r.Typed() && MasksOk(r.masks) && r.Interleaved() && |r.masks| <= ADDR_BITS
    && r.intlvMatch < Pow2(|r.masks|)
  }

  /** The number that removeIntlvBits makes of an address. */
  ghost function Flat(r: AddrRange, a: nat): nat {
    Val(Removed(r.masks, Bits(a, ADDR_BITS)))
  }

  /** How many addresses a stripe has in the whole address space. */
  ghost function Count(r: AddrRange): nat
    requires |r.masks| <= ADDR_BITS
  {
    Pow2(ADDR_BITS - |r.masks|)
  }

  ghost predicate OnStripe(r: AddrRange, a: nat)
    requires r.Typed()
  {
    a < TWO64 && r.Sel(a) == r.intlvMatch
  }

  lemma FlatBelowCount(r: AddrRange, a: nat)
    requires Striped(r)
    ensures Flat(r, a) < Count(r)
  {
    var w := Bits(a, ADDR_BITS);
    RemovedTop(r.masks, w);
    ValRemoved(r.masks, w);
    ValBound(Kept(w, Lsbs(r.masks), 0));
  }

  lemma CountIsHalf(r: AddrRange)
    requires Striped(r)
    ensures 2 * Count(r) <= TWO64 && r.Size() < Count(r)
  {
    var n := |r.masks|;
    Pow2At64(ADDR_BITS);
    Pow2Add(n, ADDR_BITS - n);
    assert Pow2(n) >= 2;
    MulMonotone(Count(r), 2, Pow2(n));
    SizeInStripe(Pow2(n), Count(r), (r.end - r.start) % TWO64);
  }

  lemma SizeInStripe(p: nat, q: nat, x: nat)
    requires p > 0 && x < p * q
    ensures Over(x, p) < q
  {
    if x / p >= q {
      MulMonotone(p, q, x / p);
    }
  }

  // The addresses of a stripe, by number.

  lemma StripeAddrExists(r: AddrRange, z: nat)
    requires Striped(r) && z < Count(r)
    ensures exists a: nat :: OnStripe(r, a) && Flat(r, a) == z
  {
    var a := WordWithKept(r, z);
    assert OnStripe(r, a) && Flat(r, a) == z;
  }

  ghost function StripeAddr(r: AddrRange, z: nat): (a: nat)
    requires Striped(r) && z < Count(r)
    ensures OnStripe(r, a) && Flat(r, a) == z
  {
    StripeAddrExists(r, z);
    var a: nat :| OnStripe(r, a) && Flat(r, a) == z;
    a
  }

  lemma NumbersIncrease(r: AddrRange, a: nat, b: nat)
    requires Striped(r) && OnStripe(r, a) && OnStripe(r, b) && a < b
    ensures Flat(r, a) < Flat(r, b)
  {
    StripeOrder(r, a, b);
  }

  lemma AddrsIncrease(r: AddrRange, y: nat, z: nat)
    requires Striped(r) && y < z < Count(r)
    ensures StripeAddr(r, y) < StripeAddr(r, z)
  {
    hide OnStripe, Flat, Striped;
    var a, b := StripeAddr(r, y), StripeAddr(r, z);
    if a > b {
      NumbersIncrease(r, b, a);
    }
  }

  lemma AddrOfNumber(r: AddrRange, a: nat)
    requires Striped(r) && OnStripe(r, a)
    ensures Flat(r, a) < Count(r) && StripeAddr(r, Flat(r, a)) == a
  {
    FlatBelowCount(r, a);
    hide OnStripe, Flat, Striped;
    var b := StripeAddr(r, Flat(r, a));
    if a < b {
      NumbersIncrease(r, a, b);
    } else if b < a {
      NumbersIncrease(r, b, a);
    }
  }

  /** z is the number of the first address of the stripe that is not below x. */
  ghost predicate FirstFrom(r: AddrRange, z: nat, x: nat)
    requires Striped(r)
  {
    z <= Count(r) && (z > 0 ==> StripeAddr(r, z - 1) < x) && (z < Count(r) ==> x <= StripeAddr(r, z))
  }

  lemma FirstFromSplits(r: AddrRange, z: nat, x: nat, y: nat)
    requires Striped(r) && FirstFrom(r, z, x) && y < Count(r)
    ensures x <= StripeAddr(r, y) <==> z <= y
  {
    hide OnStripe, Flat, Striped;
    if z < y {
      AddrsIncrease(r, z, y);
    } else if y + 1 < z {
      AddrsIncrease(r, y, z - 1);
    }
  }

  lemma ContainedIs(r: AddrRange, a: nat)
    requires Striped(r)
    ensures r.Contains(a) <==> r.InBounds(a) && OnStripe(r, a)
  {
  }

  /** A striped range contains a run of the addresses of its stripe. */
  lemma ContainsRun(r: AddrRange, lo: nat, hi: nat, y: nat)
    requires Striped(r) && FirstFrom(r, lo, r.start) && FirstFrom(r, hi, r.end) && y < Count(r)
    ensures r.Contains(StripeAddr(r, y)) <==> lo <= y < hi
  {
    FirstFromSplits(r, lo, r.start, y);
    FirstFromSplits(r, hi, r.end, y);
  }

  lemma OffsetIsDifference(r: AddrRange, a: nat)
    requires Striped(r) && r.Contains(a)
    ensures Flat(r, a) < Count(r) && Flat(r, r.start) < Count(r)
    ensures Offset(r, a) == if Flat(r, a) >= Flat(r, r.start) then Flat(r, a) - Flat(r, r.start)
                            else Flat(r, a) - Flat(r, r.start) + TWO64
  {
    FlatBelowCount(r, a);
    FlatBelowCount(r, r.start);
    CountIsHalf(r);
    hide Val, Bits, Removed, Pow2;
    Reduce(Flat(r, a), Flat(r, r.start));
  }

  lemma Reduce(x: nat, y: nat)
    requires x < TWO64 && y < TWO64
    ensures (x - y) % TWO64 == if x >= y then x - y else x - y + TWO64
  {
  }

  lemma Between(r: AddrRange, a: nat, b: nat, z: nat)
    requires Striped(r) && OnStripe(r, a) && OnStripe(r, b) && Flat(r, a) <= z <= Flat(r, b)
    ensures z < Count(r) && a <= StripeAddr(r, z) <= b
  {
    hide MasksOk, Flat, Count, OnStripe;
    AddrOfNumber(r, a);
    AddrOfNumber(r, b);
    if Flat(r, a) < z {
      AddrsIncrease(r, Flat(r, a), z);
    }
    if z < Flat(r, b) {
      AddrsIncrease(r, z, Flat(r, b));
    }
  }

  /** Whatever the bounds, the contained addresses have consecutive numbers, and so consecutive offsets modulo 2^64. */
  lemma OffsetsAreConsecutive(r: AddrRange, a: nat, b: nat, z: nat) returns (c: nat)
    requires Striped(r) && r.Contains(a) && r.Contains(b) && a <= b && Flat(r, a) <= z <= Flat(r, b)
    ensures r.Contains(c) && a <= c <= b && Flat(r, c) == z
    ensures Offset(r, c) == (Offset(r, a) + (z - Flat(r, a))) % TWO64
  {
    hide MasksOk, Flat, Count, Offset, AddrRange.Sel;
    FlatBelowCount(r, b);
    c := StripeAddr(r, z);
    Between(r, a, b, z);
    OffsetIsDifference(r, a);
    OffsetIsDifference(r, c);
    CountIsHalf(r);
    ShiftedOffset(Flat(r, a), z, Flat(r, r.start));
  }

  lemma ShiftedOffset(x: nat, z: nat, s: nat)
    requires x <= z < TWO64 && s < TWO64
    ensures ((if x >= s then x - s else x - s + TWO64) + (z - x)) % TWO64 == if z >= s then z - s else z - s + TWO64
  {
  }

  /** The first contained address has offset 0 exactly if the stripe's first address from start on has the number of start. */
  lemma FirstOffsetIsZero(r: AddrRange, a: nat)
    requires Striped(r) && r.Contains(a) && forall b: nat :: r.Contains(b) ==> a <= b
    ensures Offset(r, a) == 0 <==> FirstFrom(r, Flat(r, r.start), r.start)
  {
    var z, s := Flat(r, a), Flat(r, r.start);
    OffsetIsDifference(r, a);
    CountIsHalf(r);
    AddrOfNumber(r, a);
    FirstIsFirst(r, a);
    hide Offset, Val, Bits, Removed, Pow2;
    if FirstFrom(r, s, r.start) {
      FirstFromSplits(r, z, r.start, s);
      FirstFromSplits(r, s, r.start, z);
    }
  }

  lemma FirstIsFirst(r: AddrRange, a: nat)
    requires Striped(r) && r.Contains(a) && forall b: nat :: r.Contains(b) ==> a <= b
    ensures FirstFrom(r, Flat(r, a), r.start)
  {
    var z := Flat(r, a);
    AddrOfNumber(r, a);
    if z > 0 {
      AddrsIncrease(r, z - 1, z);
      assert !r.Contains(StripeAddr(r, z - 1));
    }
  }

  // When getOffset is a bijection.

  /** A strictly increasing bijection from the contained addresses onto [0, size()). */
  ghost predicate Bijective(r: AddrRange)
    requires r.Typed()
  {
    && (forall a: nat :: r.Contains(a) ==> 0 <= Offset(r, a) < r.Size())
    && (forall a: nat, b: nat :: r.Contains(a) && r.Contains(b) && a < b ==> Offset(r, a) < Offset(r, b))
    && (forall y: nat :: y < r.Size() ==> Reached(r, y))
  }

  ghost predicate Reached(r: AddrRange, y: nat)
    requires r.Typed()
  {
    exists a: nat :: r.Contains(a) && Offset(r, a) == y
  }

  /** The run that starts with the number of start and has size() addresses begins at start and ends at end. */
  ghost predicate Fits(r: AddrRange)
    requires Striped(r)
  {
    FirstFrom(r, Flat(r, r.start), r.start) && FirstFrom(r, Flat(r, r.start) + r.Size(), r.end)
  }

  lemma OffsetInRun(r: AddrRange, a: nat)
    requires Striped(r) && Fits(r) && r.Contains(a)
    ensures Flat(r, a) < Count(r) && Offset(r, a) == Flat(r, a) - Flat(r, r.start) && 0 <= Offset(r, a) < r.Size()
  {
    AddrOfNumber(r, a);
    ContainsRun(r, Flat(r, r.start), Flat(r, r.start) + r.Size(), Flat(r, a));
    OffsetIsDifference(r, a);
  }

  lemma FitsIsBijective(r: AddrRange)
    requires Striped(r) && Fits(r)
    ensures Bijective(r)
  {
    forall a: nat | r.Contains(a)
      ensures 0 <= Offset(r, a) < r.Size()
    {
      OffsetInRun(r, a);
    }
    forall a: nat, b: nat | r.Contains(a) && r.Contains(b) && a < b
      ensures Offset(r, a) < Offset(r, b)
    {
      OffsetInRun(r, a);
      OffsetInRun(r, b);
      NumbersIncrease(r, a, b);
    }
    forall y: nat | y < r.Size()
      ensures Reached(r, y)
    {
      ReachedInRun(r, y);
    }
  }

  lemma ReachedInRun(r: AddrRange, y: nat)
    requires Striped(r) && Fits(r) && y < r.Size()
    ensures Reached(r, y)
  {
    hide MasksOk, Flat, Count, Offset, AddrRange.Size, AddrRange.Sel;
    var s := Flat(r, r.start);
    ContainsRun(r, s, s + r.Size(), s + y);
    OffsetInRun(r, StripeAddr(r, s + y));
  }

  /** A contained address with a given offset has the number that is so far from the number of start. */
  lemma NumberOfOffset(r: AddrRange, y: nat)
    requires Striped(r) && y < r.Size() && Reached(r, y)
    ensures Flat(r, r.start) + y < Count(r) && r.Contains(StripeAddr(r, Flat(r, r.start) + y))
    ensures Offset(r, StripeAddr(r, Flat(r, r.start) + y)) == y
  {
    var a: nat :| r.Contains(a) && Offset(r, a) == y;
    OffsetIsDifference(r, a);
    CountIsHalf(r);
    AddrOfNumber(r, a);
  }

  lemma OffsetOfNumber(r: AddrRange, z: nat)
    requires Striped(r) && Flat(r, r.start) <= z < Count(r)
    ensures r.Contains(StripeAddr(r, z)) ==> Offset(r, StripeAddr(r, z)) == z - Flat(r, r.start)
  {
    if r.Contains(StripeAddr(r, z)) {
      OffsetIsDifference(r, StripeAddr(r, z));
    }
  }

  lemma BijectiveStarts(r: AddrRange)
    requires Striped(r) && r.Size() > 0 && Bijective(r)
    ensures FirstFrom(r, Flat(r, r.start), r.start)
  {
    hide MasksOk, Flat, Count, Offset, AddrRange.Size, AddrRange.Sel;
    var s := Flat(r, r.start);
    assert Reached(r, 0);
    NumberOfOffset(r, 0);
    var first := StripeAddr(r, s);
    if s > 0 {
      AddrsIncrease(r, s - 1, s);
      assert !r.Contains(StripeAddr(r, s - 1));
    }
  }

  lemma BijectiveEnds(r: AddrRange)
    requires Striped(r) && r.Size() > 0 && Bijective(r)
    ensures FirstFrom(r, Flat(r, r.start) + r.Size(), r.end)
  {
    hide MasksOk, Flat, Count, Offset, AddrRange.Size, AddrRange.Sel;
    var e := Flat(r, r.start) + r.Size();
    assert Reached(r, r.Size() - 1);
    NumberOfOffset(r, r.Size() - 1);
    if e < Count(r) {
      AddrsIncrease(r, e - 1, e);
      OffsetOfNumber(r, e);
      assert !r.Contains(StripeAddr(r, e));
    }
  }

  /**
   For any bounds: getOffset is a strictly increasing bijection onto [0, size()) if and only if the
   stripe's address with the number of start is the first from start on, and the one size() further
   on is the first from end on.  A range of size 0 must contain nothing.
   */
  lemma BijectiveExactlyIfItFits(r: AddrRange)
    requires Striped(r)
    ensures r.Size() > 0 ==> (Bijective(r) <==> Fits(r))
    ensures r.Size() == 0 ==> (Bijective(r) <==> forall a: nat :: !r.Contains(a))
  {
    if r.Size() > 0 {
      if Bijective(r) {
        BijectiveStarts(r);
        BijectiveEnds(r);
      }
      if Fits(r) {
        FitsIsBijective(r);
      }
    }
  }

  /** Bounds aligned to the lowest mask bits fit. */
  lemma AlignedIsBijective(r: AddrRange, h: nat)
    requires Aligned(r, h)
    ensures Striped(r) && Bijective(r)
  {
    MasksFit(r.masks, h);
    forall a: nat | r.Contains(a)
      ensures 0 <= Offset(r, a) < r.Size()
    {
      OffsetBelowSize(r, h, a);
    }
    forall a: nat, b: nat | r.Contains(a) && r.Contains(b) && a < b
      ensures Offset(r, a) < Offset(r, b)
    {
      OffsetIncreases(r, h, a, b);
    }
    forall y: nat | y < r.Size()
      ensures Reached(r, y)
    {
      var a := OffsetReached(r, h, y);
    }
  }

  // Ranges without stripes, and addresses outside the bounds.

  lemma PlainOffset(r: AddrRange, a: nat)
    requires r.Typed() && !r.Interleaved()
    ensures r.Contains(a) <==> r.InBounds(a) && r.intlvMatch == 0
    ensures r.InBounds(a) ==> Offset(r, a) == a - r.start
  {
    assert Selector(r.masks, Bits(a, ADDR_BITS)) == [];
  }

  /** For a range without stripes the bijection fails only for inverted bounds, or a match value that nothing meets. */
  lemma PlainBijective(r: AddrRange)
    requires r.Typed() && !r.Interleaved()
    ensures Bijective(r) <==> r.start == r.end || (r.start < r.end && r.intlvMatch == 0)
  {
    forall a: nat
      ensures r.Contains(a) <==> r.InBounds(a) && r.intlvMatch == 0
      ensures r.InBounds(a) ==> Offset(r, a) == a - r.start
    {
      PlainOffset(r, a);
    }
    if r.start < r.end && r.intlvMatch == 0 {
      SizePlain(r);
      forall y: nat | y < r.Size()
        ensures Reached(r, y)
      {
        assert r.Contains(r.start + y);
      }
    } else if r.start != r.end {
      PlainSizePositive(r);
      assert !Reached(r, 0);
    }
  }

  lemma PlainSizePositive(r: AddrRange)
    requires r.Typed() && !r.Interleaved() && r.start != r.end
    ensures r.Size() > 0
  {
    assert Pow2(0) == 1;
    assert (r.end - r.start) % TWO64 > 0;
  }

  /** The offset of an address outside the bounds is that of no contained address. */
  ghost predicate OutsideIsApart(r: AddrRange)
    requires r.Typed()
  {
    forall a: nat, b: nat {:trigger Offset(r, a), Offset(r, b)} ::
      !r.InBounds(a) && r.Contains(b) ==> Offset(r, a) != Offset(r, b)
  }

  /** Outside the bounds getOffset gives 2^64 - 1. */
  lemma OffsetOutside(r: AddrRange, a: nat)
    ensures !r.InBounds(a) ==> Offset(r, a) == TWO64 - 1
  {
  }

  /** A striped range gives this number to a contained address exactly if it contains the one just before the number of start. */
  lemma OutsideIsApartExactly(r: AddrRange)
    requires Striped(r)
    ensures OutsideIsApart(r) <==> Flat(r, r.start) == 0 || !ContainsNumber(r, Flat(r, r.start) - 1)
  {
    FlatBelowCount(r, r.start);
    OffsetOutside(r, TWO64);
    hide Striped, MasksOk, Flat, Count, Offset, AddrRange.Sel;
    forall b: nat | r.Contains(b)
      ensures Offset(r, b) == TWO64 - 1 <==> Flat(r, b) == Flat(r, r.start) - 1
    {
      TopOffset(r, b);
    }
    forall a: nat | !r.InBounds(a)
      ensures Offset(r, a) == TWO64 - 1
    {
      OffsetOutside(r, a);
    }
    if Flat(r, r.start) > 0 && ContainsNumber(r, Flat(r, r.start) - 1) {
      var b := StripeAddr(r, Flat(r, r.start) - 1);
      assert r.Contains(b) && !r.InBounds(TWO64) && Offset(r, TWO64) == Offset(r, b);
    } else if b: nat :| r.Contains(b) && Flat(r, b) == Flat(r, r.start) - 1 {
      AddrOfNumber(r, b);
    }
  }

  ghost predicate ContainsNumber(r: AddrRange, z: nat)
    requires Striped(r)
  {
    z < Count(r) && r.Contains(StripeAddr(r, z))
  }

  lemma TopOffset(r: AddrRange, b: nat)
    requires Striped(r) && r.Contains(b)
    ensures Offset(r, b) == TWO64 - 1 <==> Flat(r, b) == Flat(r, r.start) - 1
  {
    OffsetIsDifference(r, b);
    CountIsHalf(r);
  }

  /** Ranges for which getOffset is a bijection onto [0, size()) keep outside addresses apart. */
  lemma BijectiveIsApart(r: AddrRange)
    requires r.Typed() && Bijective(r) && (Striped(r) || !r.Interleaved())
    ensures OutsideIsApart(r)
  {
    if Striped(r) {
      CountIsHalf(r);
    } else {
      PlainSizeBelow(r);
    }
  }

  lemma PlainSizeBelow(r: AddrRange)
    requires r.Typed() && !r.Interleaved()
    ensures r.Size() < TWO64
  {
    assert Pow2(0) == 1;
  }

  // An instance that does not fit: the odd blocks of eight bytes in [7, 23).

  function OddBlocks(): AddrRange {
    AddrRange(7, 23, [OneBit(3)], 1)
  }

  lemma OddBlocksOk(k: nat)
    requires k == 3
    ensures Striped(OddBlocks()) && Lsbs(OddBlocks().masks) == {k} && OddBlocks().Size() == 8
  {
    CtzIs(OneBit(k), k);
    assert Lsbs(OddBlocks().masks) == {Ctz(OddBlocks().masks[0])};
    assert Pow2(1) == 2;
  }

  lemma NumberOfEight(k: nat)
    requires k == 3
    ensures Flat(OddBlocks(), Pow2(k)) == 0
  {
    hide Val, Bits, Removed, Kept, Pow2;
    var w := OneBit(k);
    OddBlocksOk(k);
    BitsOfPow2(k, ADDR_BITS);
    KeptUpdate(Zeros(ADDR_BITS), {k}, k, true);
    KeptZeros(ADDR_BITS, {k}, 0);
    ValRemoved(OddBlocks().masks, w);
  }

  lemma StripeOfEight(k: nat)
    requires k == 3
    ensures OddBlocks().Sel(Pow2(k)) == 1
  {
    var w := OneBit(k);
    BitsOfPow2(k, ADDR_BITS);
    hide Bits;
    ParityOneBit(w, k);
    assert Selector(OddBlocks().masks, w) == [true];
    assert Val([true]) == 1 + 2 * Val([]);
  }

  lemma NumberOfSeven(k: nat)
    requires k == 3
    ensures Flat(OddBlocks(), Pow2(k) - 1) == Pow2(k) - 1
  {
    var w := Mask(k, ADDR_BITS);
    OddBlocksOk(k);
    LowOnes(k, ADDR_BITS);
    ValRemoved(OddBlocks().masks, w);
    hide Val, Bits, Removed, Kept, Pow2;
    KeptAroundOne(w, k);
    assert w[..k] + w[k + 1..] == Mask(k, ADDR_BITS - 1);
    LowOnes(k, ADDR_BITS - 1);
    Pow2Monotone(k, ADDR_BITS - 1);
    ValOfBits(Pow2(k) - 1, ADDR_BITS - 1);
  }

  lemma KeptNothing(w: Word, drop: set<nat>)
    ensures Kept(w[..0], drop, 0) == []
  {
  }

  /** Its size is 8, its first address is 8, and the offset of that is 2^64 - 7. */
  lemma OddBlocksDoNotFit(k: nat)
    requires k == 3
    ensures Striped(OddBlocks()) && OddBlocks().Size() == 8 && OddBlocks().Contains(8)
    ensures Offset(OddBlocks(), 8) == TWO64 - 7 && !Bijective(OddBlocks()) && !Fits(OddBlocks())
  {
    var r := OddBlocks();
    assert Pow2(k) == 8;
    OddBlocksOk(k);
    StripeOfEight(k);
    NumberOfEight(k);
    NumberOfSeven(k);
    assert r.Contains(8);
    OffsetIsDifference(r, 8);
    BijectiveExactlyIfItFits(r);
  }

  // An instance whose first address has the number of those outside: the odd pairs in [1, 17).

  function OddPairs(): AddrRange {
    AddrRange(1, 17, [OneBit(1)], 1)
  }

  lemma OddPairsOk(k: nat)
    requires k == 1
    ensures Striped(OddPairs()) && Lsbs(OddPairs().masks) == {k}
  {
    CtzIs(OneBit(k), k);
    assert Lsbs(OddPairs().masks) == {Ctz(OddPairs().masks[0])};
    assert Pow2(1) == 2;
  }

  /** A power of two below the mask bit keeps its number, and the mask bit itself drops out. */
  lemma NumberOfPower(k: nat, j: nat)
    requires k == 1 && j <= k
    ensures Flat(OddPairs(), Pow2(j)) == if j == k then 0 else Pow2(j)
  {
    var w := OneBit(j);
    OddPairsOk(k);
    BitsOfPow2(j, ADDR_BITS);
    ValRemoved(OddPairs().masks, w);
    hide Val, Bits, Removed, Pow2;
    if j == k {
      KeptUpdate(Zeros(ADDR_BITS), {k}, k, true);
      KeptZeros(ADDR_BITS, {k}, 0);
    } else {
      KeptOne(w, k);
      ValOfOne(ADDR_BITS - 1);
    }
  }

  lemma KeptOne(w: Word, k: nat)
    requires k == 1 && w == OneBit(0)
    ensures Kept(w, {k}, 0) == Zeros(ADDR_BITS - 1)[0 := true]
  {
    KeptAroundOne(w, k);
    hide Kept;
    OneWithoutNext(w, k);
  }

  lemma OneWithoutNext(w: Word, k: nat)
    requires k == 1 && w == OneBit(0)
    ensures w[..k] + w[k + 1..] == Zeros(ADDR_BITS - 1)[0 := true]
  {
  }

  /** Dropping one bit keeps what is below and above it. */
  lemma KeptAroundOne(w: Word, k: nat)
    requires |w| == ADDR_BITS && k < ADDR_BITS
    ensures Kept(w, {k}, 0) == w[..k] + w[k + 1..]
  {
    KeptNothing(w, {k});
    hide Kept;
    KeptUpTo(w, {k}, 0, k);
    KeptDropsLast(w, {k}, k);
    KeptUpTo(w, {k}, k + 1, ADDR_BITS);
    assert w[..ADDR_BITS] == w && w[0..k] == w[..k] && w[k + 1..ADDR_BITS] == w[k + 1..];
  }

  lemma ValOfOne(n: nat)
    requires n > 0
    ensures Val(Zeros(n)[0 := true]) == Pow2(0)
  {
    ValZeros(n - 1);
    assert Zeros(n)[0 := true] == [true] + Zeros(n - 1);
    assert ([true] + Zeros(n - 1))[1..] == Zeros(n - 1);
  }

  lemma StripeOfTwo(k: nat)
    requires k == 1
    ensures OddPairs().Sel(Pow2(k)) == 1
  {
    var w := OneBit(k);
    BitsOfPow2(k, ADDR_BITS);
    hide Bits;
    ParityOneBit(w, k);
    assert Selector(OddPairs().masks, w) == [true];
    assert Val([true]) == 1 + 2 * Val([]);
  }

  /** Address 2 is contained and address 0 is outside, and both get 2^64 - 1. */
  lemma OutsideNumberIsTaken(k: nat)
    requires k == 1
    ensures OddPairs().Typed() && OddPairs().Contains(2) && !OddPairs().InBounds(0)
    ensures Offset(OddPairs(), 2) == Offset(OddPairs(), 0) == TWO64 - 1
  {
    assert Pow2(k) == 2 && Pow2(0) == 1;
    OddPairsOk(k);
    StripeOfTwo(k);
    NumberOfPower(k, 0);
    NumberOfPower(k, 1);
    assert OddPairs().Contains(2);
    OffsetIsDifference(OddPairs(), 2);
    OffsetOutside(OddPairs(), 0);
  }
}
