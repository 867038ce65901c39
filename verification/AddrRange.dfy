/** The AddrRange class of base/addr_range.hh. */
module AddrRanges {
  import opened Arith
  import opened Interleaving
  import opened Options
  import opened Words

  const MAX_ADDR := TWO64 - 1

  datatype AddrRange = AddrRange(start: nat, end: nat, masks: seq<Word>, intlvMatch: nat) {
    /** The field types: 64-bit addresses and masks. */
    predicate Typed() {
      && start < TWO64 && end < TWO64
      && forall i :: 0 <= i < |masks| ==> |masks[i]| == ADDR_BITS
    }

    predicate Interleaved() {
      |masks| > 0
    }

    /** (_end - _start) >> masks.size(), in 64-bit arithmetic. */
    function Size(): nat {
      Over((end - start) % TWO64, Pow2(|masks|))
    }

    predicate InBounds(a: nat) {
      start <= a < end
    }

    /** The stripe of an address. */
    function Sel(a: nat): nat
      requires Typed()
    {
      Val(Selector(masks, Bits(a, ADDR_BITS)))
    }

    predicate Contains(a: nat)
      requires Typed()
    {
      InBounds(a) && Sel(a) == intlvMatch
    }

    predicate MergesWith(r: AddrRange) {
      r.start == start && r.end == end && r.masks == masks
    }

    /** operator<, the order of AddrRangeMap and of list::sort. */
    predicate Less(r: AddrRange) {
      if start != r.start then start < r.start
      else if Interleaved() && r.Interleaved() then intlvMatch < r.intlvMatch
      else Interleaved()
    }

    predicate Overlaps(r: AddrRange) {
      start < r.end && r.start < end
    }

    function Intersects(r: AddrRange): Result<bool>
      requires Typed()
    {
      if start >= r.end || end <= r.start then Ok(false)
      else if !Interleaved() && !r.Interleaved() then Ok(true)
      else if r.Size() == 1 then Ok(Contains(r.start))
      else if MergesWith(r) then Ok(intlvMatch == r.intlvMatch)
      else Panic
    }

    /** Some mask bit below bit 32, where granularity() looks for it. */
    predicate HasGranularity() {
      Interleaved() ==> MinLsb(masks) < 32
    }

    function Granularity(): nat
      requires HasGranularity()
    {
      if Interleaved() then Pow2(MinLsb(masks)) else Size()
    }

    function IsSubset(r: AddrRange): Result<bool>
      requires Typed() && r.Typed() && r.HasGranularity()
    {
      if Interleaved() then Panic
      else if r.Interleaved() then
        Ok(r.Contains(start) && r.Contains((end - 1) % TWO64) && Size() <= r.Granularity())
      else if end <= start then Ok(start >= r.start && r.end == 0)
      else if r.end <= r.start then Ok(start >= r.start)
      else Ok(start >= r.start && end <= r.end)
    }
  }

  /** The lowest bit set in any mask. */
  function MinLsb(masks: seq<Word>): nat
    requires |masks| > 0
  {
    var k := Ctz(masks[0]);
    if |masks| == 1 then k else
      var rest := MinLsb(masks[1..]);
      if k < rest then k else rest
  }

  method Contains(r: AddrRange, a: nat) returns (c: bool)
    requires r.Typed() && a < TWO64
    ensures c == r.Contains(a)
  {
    var inRange := a >= r.start && a < r.end;
    if !inRange {
      return false;
    }
    var sel := 0;
    ghost var full := Selector(r.masks, Bits(a, ADDR_BITS));
    for i := 0 to |r.masks|
      invariant sel == Val(full[..i])
    {
      var masked := And(Bits(a, ADDR_BITS), r.masks[i]);
      sel := sel + PopCount(masked) % 2 * Pow2(i);
      ValAppend(full[..i], [full[i]]);
      assert full[..i + 1] == full[..i] + [full[i]];
    }
    assert full[..|full|] == full;
    return sel == r.intlvMatch;
  }

  // granularity and isSubset

  lemma {:induction false} CtzOr(a: Word, b: Word)
    requires |a| == |b|
    ensures Ctz(Or(a, b)) == if Ctz(a) < Ctz(b) then Ctz(a) else Ctz(b)
  {
    var k := if Ctz(a) < Ctz(b) then Ctz(a) else Ctz(b);
    CtzIs(Or(a, b), k);
  }

  lemma CtzIs(a: Word, k: nat)
    requires k <= |a| && (forall i :: 0 <= i < k ==> !a[i]) && (k < |a| ==> a[k])
    ensures Ctz(a) == k
  {
  }

  lemma {:induction false} MinLsbSnoc(masks: seq<Word>, m: Word)
    requires |masks| > 0
    ensures MinLsb(masks + [m]) == if Ctz(m) < MinLsb(masks) then Ctz(m) else MinLsb(masks)
  {
    if |masks| > 1 {
      MinLsbSnoc(masks[1..], m);
      assert (masks + [m])[1..] == masks[1..] + [m];
    }
  }

  /** granularity() of an interleaved range: the masks are collected in a 32-bit int. */
  method CombinedGranularity(r: AddrRange) returns (g: nat)
    requires r.Typed() && r.Interleaved() && r.HasGranularity()
    ensures g == r.Granularity()
  {
    var masks := r.masks;
    var combined := Zeros(32);
    CtzIs(combined, 32);
    for i := 0 to |masks|
      invariant |combined| == 32 && Ctz(combined) == LowestBelow32(masks[..i])
    {
      CombineStep(masks, i, combined);
      combined := Or(combined, masks[i][..32]);
    }
    assert masks[..|masks|] == masks;
    g := Pow2(Ctz(combined));
  }

  function LowestBelow32(masks: seq<Word>): nat {
    if masks == [] || MinLsb(masks) > 32 then 32 else MinLsb(masks)
  }

  lemma CombineStep(masks: seq<Word>, i: nat, combined: Word)
    requires i < |masks| && |masks[i]| == ADDR_BITS && |combined| == 32 && Ctz(combined) == LowestBelow32(masks[..i])
    ensures Ctz(Or(combined, masks[i][..32])) == LowestBelow32(masks[..i + 1])
  {
    CtzIs(masks[i][..32], if Ctz(masks[i]) < 32 then Ctz(masks[i]) else 32);
    CtzOr(combined, masks[i][..32]);
    assert masks[..i + 1] == masks[..i] + [masks[i]];
    if i > 0 {
      MinLsbSnoc(masks[..i], masks[i]);
    }
  }

  lemma {:induction false} HighBits(a: nat, n: nat, g: nat)
    requires g <= n
    ensures Bits(a, n)[g..] == Bits(a / Pow2(g), n - g)
  {
    if g > 0 {
      HighBits(a / 2, n - 1, g - 1);
      assert Bits(a, n)[g..] == Bits(a / 2, n - 1)[g - 1..];
      HalfThenQuotient(Pow2(g - 1), a);
    }
  }

  /** Addresses of one block below every mask bit are in one stripe. */
  lemma BlockInOneStripe(r: AddrRange, g: nat, a: nat, b: nat)
    requires r.Typed() && g <= ADDR_BITS && a / Pow2(g) == b / Pow2(g)
    requires forall i :: 0 <= i < |r.masks| ==> Ctz(r.masks[i]) >= g
    ensures r.Sel(a) == r.Sel(b)
  {
    var x, y := Bits(a, ADDR_BITS), Bits(b, ADDR_BITS);
    HighBits(a, ADDR_BITS, g);
    HighBits(b, ADDR_BITS, g);
    forall i | 0 <= i < |r.masks|
      ensures And(x, r.masks[i]) == And(y, r.masks[i])
    {
      forall k | 0 <= k < ADDR_BITS
        ensures And(x, r.masks[i])[k] == And(y, r.masks[i])[k]
      {
        if k >= g {
          assert x[k] == x[g..][k - g] && y[k] == y[g..][k - g];
        }
      }
    }
    assert Selector(r.masks, x) == Selector(r.masks, y);
  }

  lemma {:induction false} MinLsbIsLeast(masks: seq<Word>, i: nat)
    requires i < |masks|
    ensures MinLsb(masks) <= Ctz(masks[i])
  {
    if i > 0 {
      MinLsbIsLeast(masks[1..], i - 1);
    }
  }

  ghost predicate AllIn(x: AddrRange, r: AddrRange)
    requires r.Typed()
  {
    forall a: nat :: x.InBounds(a) ==> r.Contains(a)
  }

  // What the granularity is: the size of the largest aligned blocks that lie in one stripe each.

  ghost predicate BlocksInStripes(r: AddrRange, k: nat)
    requires r.Typed()
  {
    forall a: nat, b: nat {:trigger r.Sel(a), r.Sel(b)} :: a < TWO64 && b < TWO64 && a / Pow2(k) == b / Pow2(k) ==>
      r.Sel(a) == r.Sel(b)
  }

  /** The granularity is a power of two, and blocks of 2^k bytes lie in one stripe each exactly up to it. */
  lemma GranularityIsGreatest(r: AddrRange, k: nat)
    requires r.Typed() && r.Interleaved() && r.HasGranularity()
    ensures r.Granularity() == Pow2(MinLsb(r.masks))
    ensures BlocksInStripes(r, k) <==> Pow2(k) <= r.Granularity()
  {
    var g := MinLsb(r.masks);
    if k <= g {
      Pow2Monotone(k, g);
      forall a: nat, b: nat | a / Pow2(k) == b / Pow2(k)
        ensures r.Sel(a) == r.Sel(b)
      {
        SameStripe(r, k, a, b);
      }
    } else {
      Pow2Monotone(g + 1, k);
      NextBlockIsOther(r, k);
    }
  }

  lemma SameStripe(r: AddrRange, k: nat, a: nat, b: nat)
    requires r.Typed() && r.Interleaved() && r.HasGranularity() && k <= MinLsb(r.masks) && a / Pow2(k) == b / Pow2(k)
    ensures r.Sel(a) == r.Sel(b)
  {
    forall i | 0 <= i < |r.masks|
      ensures Ctz(r.masks[i]) >= k
    {
      MinLsbIsLeast(r.masks, i);
    }
    BlockInOneStripe(r, k, a, b);
  }

  lemma {:induction false} MinLsbIsSome(masks: seq<Word>) returns (i: nat)
    requires |masks| > 0
    ensures i < |masks| && Ctz(masks[i]) == MinLsb(masks)
  {
    i := 0;
    if |masks| > 1 && Ctz(masks[0]) >= MinLsb(masks[1..]) {
      var j := MinLsbIsSome(masks[1..]);
      i := j + 1;
    }
  }

  /** Addresses 0 and 2^g, g the lowest mask bit, are in different stripes of any larger block. */
  lemma NextBlockIsOther(r: AddrRange, k: nat)
    requires r.Typed() && r.Interleaved() && r.HasGranularity() && MinLsb(r.masks) < k
    ensures !BlocksInStripes(r, k)
  {
    var g := MinLsb(r.masks);
    OtherStripe(r, g);
    PowerBelow(g, k);
    hide MinLsb, Pow2, AddrRange.Sel;
    SmallQuotient(Pow2(g), Pow2(k));
    assert r.Sel(0) != r.Sel(Pow2(g));
  }

  lemma PowerBelow(g: nat, k: nat)
    requires g < k && g < 32
    ensures Pow2(g) < Pow2(k) && Pow2(g) < TWO64
  {
    Pow2Monotone(g + 1, k);
    Pow2Monotone(g, 32);
    Pow2At32(32);
  }

  lemma OtherStripe(r: AddrRange, g: nat)
    requires r.Typed() && r.Interleaved() && g == MinLsb(r.masks) < ADDR_BITS
    ensures r.Sel(0) != r.Sel(Pow2(g))
  {
    var i := MinLsbIsSome(r.masks);
    hide Bits, Pow2, MinLsb;
    SelectorsDiffer(r.masks, i, g);
    BitsOfPow2(g, ADDR_BITS);
    ZeroBits(ADDR_BITS);
    SelDiffers(r, 0, Pow2(g));
  }

  lemma Pow2At32(n: nat)
    requires n == 32
    ensures Pow2(n) < TWO64
  {
    Pow2At64(n + n);
    Pow2Add(n, n);
    assert Pow2(n) >= 2;
    MulMonotone(Pow2(n), 2, Pow2(n));
  }

  lemma SmallQuotient(x: nat, p: nat)
    requires x < p
    ensures x / p == 0 / p == 0
  {
    DivMod(p, 0, x);
    DivMod(p, 0, 0);
  }

  lemma SelDiffers(r: AddrRange, a: nat, b: nat)
    requires r.Typed() && Selector(r.masks, Bits(a, ADDR_BITS)) != Selector(r.masks, Bits(b, ADDR_BITS))
    ensures r.Sel(a) != r.Sel(b)
  {
    BitsOfVal(Selector(r.masks, Bits(a, ADDR_BITS)));
    BitsOfVal(Selector(r.masks, Bits(b, ADDR_BITS)));
  }

  lemma SelectorsDiffer(masks: seq<Word>, i: nat, g: nat)
    requires i < |masks| && (forall j :: 0 <= j < |masks| ==> |masks[j]| == ADDR_BITS) && Ctz(masks[i]) == g < ADDR_BITS
    ensures Selector(masks, Zeros(ADDR_BITS)) != Selector(masks, Zeros(ADDR_BITS)[g := true])
  {
    var zeros, one := Zeros(ADDR_BITS), Zeros(ADDR_BITS)[g := true];
    ParityUpdate(zeros, masks[i], g, true);
    assert Selector(masks, zeros)[i] != Selector(masks, one)[i];
  }

  /** The end of a plain range, where 0 stands for 2^64. */
  function Top(r: AddrRange): nat {
    if r.end == 0 then TWO64 else r.end
  }

  predicate Spans(r: AddrRange, a: nat) {
    r.start <= a < Top(r)
  }

  /**
   For a plain range x of proper or wrapped bounds, isSubset holds exactly if every address of x is in r and,
   when r is striped, x is no longer than the largest blocks, of 2^k bytes, that lie in one stripe each.
   */
  lemma IsSubsetIsExact(x: AddrRange, r: AddrRange, k: nat)
    requires x.Typed() && r.Typed() && !x.Interleaved() && x.start < Top(x) && r.HasGranularity()
    requires if r.Interleaved() then BlocksInStripes(r, k) && !BlocksInStripes(r, k + 1) else r.start < Top(r)
    ensures r.Interleaved() ==>
              x.IsSubset(r) == Ok((forall a: nat :: Spans(x, a) ==> r.Contains(a)) && Top(x) - x.start <= Pow2(k))
    ensures !r.Interleaved() ==>
              x.IsSubset(r) == Ok(forall a: nat :: Spans(x, a) ==> Spans(r, a))
    ensures !r.Interleaved() && r.end != 0 && r.intlvMatch == 0 ==> forall a: nat :: Spans(r, a) <==> r.Contains(a)
  {
    if !r.Interleaved() {
      PlainSubset(x, r);
    } else {
      hide BlocksInStripes, MinLsb, Pow2, AddrRange.Sel, AddrRange.Granularity, AddrRange.Size;
      GranularityIsGreatest(r, k);
      GranularityIsGreatest(r, k + 1);
      PowersNextTo(k, MinLsb(r.masks));
      if x.end == 0 {
        WrappedIsNoSubset(x, r);
      } else {
        StripedSubset(x, r);
        SizePlain(x);
        assert forall a: nat :: Spans(x, a) <==> x.InBounds(a);
      }
    }
  }

  /** isSubset panics exactly for a striped first range. */
  lemma IsSubsetPanics(x: AddrRange, r: AddrRange)
    requires x.Typed() && r.Typed() && r.HasGranularity()
    ensures x.IsSubset(r) == Panic <==> |x.masks| > 0
  {
  }

  /** A striped range does not contain the last address. */
  lemma WrappedIsNoSubset(x: AddrRange, r: AddrRange)
    requires x.Typed() && r.Typed() && !x.Interleaved() && x.end == 0 && r.HasGranularity() && r.Interleaved()
    ensures x.IsSubset(r) == Ok(false) && Spans(x, TWO64 - 1) && !r.Contains(TWO64 - 1)
  {
    assert (x.end - 1) % TWO64 == TWO64 - 1;
  }

  lemma PowersNextTo(k: nat, g: nat)
    requires Pow2(k) <= Pow2(g) < Pow2(k + 1)
    ensures Pow2(k) == Pow2(g)
  {
    if g > k {
      Pow2Monotone(k + 1, g);
    } else if g < k {
      Pow2Monotone(g + 1, k);
    }
  }

  lemma StripedSubset(x: AddrRange, r: AddrRange)
    requires x.Typed() && r.Typed() && !x.Interleaved() && x.start < x.end && r.HasGranularity() && r.Interleaved()
    ensures x.IsSubset(r) == Ok(AllIn(x, r) && x.Size() <= r.Granularity())
  {
    hide AddrRange.Granularity, AddrRange.Sel, MasksOk;
    assert (x.end - 1) % TWO64 == x.end - 1;
    assert x.InBounds(x.start) && x.InBounds(x.end - 1);
    if r.Contains(x.start) && r.Contains(x.end - 1) && x.Size() <= r.Granularity() {
      forall a | x.InBounds(a)
        ensures r.Contains(a)
      {
        ShortRangeStaysInStripe(x, r, a);
      }
    }
  }

  lemma PlainSubset(x: AddrRange, r: AddrRange)
    requires x.Typed() && r.Typed() && !x.Interleaved() && x.start < Top(x) && !r.Interleaved() && r.start < Top(r)
    ensures x.IsSubset(r) == Ok(forall a: nat :: Spans(x, a) ==> Spans(r, a))
  {
    var last := Top(x) - 1;
    assert Spans(x, x.start) && Spans(x, last);
  }

  lemma SizePlain(x: AddrRange)
    requires x.Typed() && !x.Interleaved() && x.start <= x.end
    ensures x.Size() == x.end - x.start
  {
  }

  lemma ShortRangeStaysInStripe(x: AddrRange, r: AddrRange, a: nat)
    requires x.Typed() && r.Typed() && !x.Interleaved() && r.Interleaved() && r.HasGranularity() && x.InBounds(a)
    requires r.Contains(x.start) && r.Contains(x.end - 1) && x.Size() <= r.Granularity()
    ensures r.Contains(a)
  {
    var g := MinLsb(r.masks);
    forall i | 0 <= i < |r.masks|
      ensures Ctz(r.masks[i]) >= g
    {
      MinLsbIsLeast(r.masks, i);
    }
    SizePlain(x);
    QuotientMonotone(Pow2(g), x.start, a);
    QuotientMonotone(Pow2(g), a, x.end - 1);
    QuotientStep(Pow2(g), x.start, x.end - 1);
    if a / Pow2(g) == x.start / Pow2(g) {
      BlockInOneStripe(r, g, a, x.start);
    } else {
      BlockInOneStripe(r, g, a, x.end - 1);
    }
  }
}
