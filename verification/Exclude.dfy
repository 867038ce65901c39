/** AddrRange::exclude: the subtraction of a list of intervals from a range (base/addr_range.hh). */
module Exclude {
  import opened AddrRanges
  import opened Arith
  import opened Interleaving
  import opened Options
  import opened Sorting
  import opened Words

  function Plain(start: nat, end: nat): AddrRange {
    AddrRange(start, end, [], 0)
  }

  ghost predicate Covered(ranges: seq<AddrRange>, a: nat) {
    exists i :: 0 <= i < |ranges| && ranges[i].InBounds(a)
  }

  /** Non-empty plain ranges in increasing order, none touching the inside of another. */
  ghost predicate Disjoint(ranges: seq<AddrRange>) {
    && (forall i :: 0 <= i < |ranges| ==> !ranges[i].Interleaved() && ranges[i].start < ranges[i].end)
    && (forall i, j :: 0 <= i < j < |ranges| ==> ranges[i].end <= ranges[j].start)
  }

  /**
   The loop invariant before element i of the sorted exclusion list: below next the result is final,
   and from next on nothing has been excluded yet.
   */
  ghost predicate Decided(r: AddrRange, sorted: seq<AddrRange>, result: seq<AddrRange>, next: nat, i: nat)
    requires i <= |sorted|
  {
    && r.start <= next && (next == r.start || next < r.end)
    && Disjoint(result) && (forall k :: 0 <= k < |result| ==> result[k].end <= next)
    && (forall a: nat :: Covered(result, a) ==> r.InBounds(a) && !Covered(sorted, a))
    && (forall a: nat :: r.InBounds(a) && a < next && !Covered(result, a) ==> Covered(sorted, a))
    && (forall a: nat, k :: next <= a < r.end && 0 <= k < i ==> !sorted[k].InBounds(a))
  }

  ghost predicate Subtracted(r: AddrRange, sorted: seq<AddrRange>, result: seq<AddrRange>) {
    Disjoint(result) && forall a: nat :: Covered(result, a) <==> r.InBounds(a) && !Covered(sorted, a)
  }

  lemma CoveredSnoc(ranges: seq<AddrRange>, e: AddrRange)
    ensures forall a: nat :: Covered(ranges + [e], a) <==> Covered(ranges, a) || e.InBounds(a)
  {
    var all := ranges + [e];
    forall a: nat
      ensures Covered(all, a) <==> Covered(ranges, a) || e.InBounds(a)
    {
      if Covered(ranges, a) {
        var i :| 0 <= i < |ranges| && ranges[i].InBounds(a);
        assert all[i].InBounds(a);
      }
      if e.InBounds(a) {
        assert all[|ranges|].InBounds(a);
      }
    }
  }

  ghost predicate ByStart(ranges: seq<AddrRange>) {
    forall i, j :: 0 <= i < j < |ranges| ==> ranges[i].start <= ranges[j].start
  }

  /** The gap in front of element i goes into the result. */
  lemma PushGap(r: AddrRange, sorted: seq<AddrRange>, result: seq<AddrRange>, next: nat, i: nat)
    requires i < |sorted| && Decided(r, sorted, result, next, i) && ByStart(sorted)
    requires next < sorted[i].start < r.end
    ensures Decided(r, sorted, result + [Plain(next, sorted[i].start)], sorted[i].start, i)
  {
    CoveredSnoc(result, Plain(next, sorted[i].start));
  }

  /** What element i excludes is passed over, up to its end. */
  lemma PassOver(r: AddrRange, sorted: seq<AddrRange>, result: seq<AddrRange>, next: nat, i: nat, to: nat)
    requires i < |sorted| && Decided(r, sorted, result, next, i)
    requires sorted[i].start <= next <= to && sorted[i].end <= to && (to == next || to == sorted[i].end < r.end)
    ensures Decided(r, sorted, result, to, i + 1)
  {
    forall a: nat | next <= a < to
      ensures Covered(sorted, a)
    {
      assert sorted[i].InBounds(a);
    }
  }

  lemma Skip(r: AddrRange, sorted: seq<AddrRange>, result: seq<AddrRange>, next: nat, i: nat)
    requires i < |sorted| && Decided(r, sorted, result, next, i) && r.Typed() && !r.Interleaved() && !sorted[i].Interleaved()
    requires r.Intersects(sorted[i]) != Ok(true)
    ensures Decided(r, sorted, result, next, i + 1)
  {
  }

  /** Element i excludes the whole rest of r. */
  lemma RestExcluded(r: AddrRange, sorted: seq<AddrRange>, result: seq<AddrRange>, next: nat, i: nat)
    requires i < |sorted| && Decided(r, sorted, result, next, i)
    requires sorted[i].start <= next && r.end <= sorted[i].end
    ensures Subtracted(r, sorted, result)
  {
    forall a: nat | next <= a && r.InBounds(a)
      ensures Covered(sorted, a)
    {
      assert sorted[i].InBounds(a);
    }
  }

  lemma PushRest(r: AddrRange, sorted: seq<AddrRange>, result: seq<AddrRange>, next: nat)
    requires Decided(r, sorted, result, next, |sorted|)
    ensures Subtracted(r, sorted, if next < r.end then result + [Plain(next, r.end)] else result)
  {
    CoveredSnoc(result, Plain(next, r.end));
  }

  lemma SameCover(xs: seq<AddrRange>, ys: seq<AddrRange>)
    requires multiset(xs) == multiset(ys)
    ensures forall a: nat :: Covered(xs, a) ==> Covered(ys, a)
  {
    forall a: nat | Covered(xs, a)
      ensures Covered(ys, a)
    {
      var i :| 0 <= i < |xs| && xs[i].InBounds(a);
      assert xs[i] in multiset(ys);
      var j :| 0 <= j < |ys| && ys[j] == xs[i];
    }
  }

  lemma SortedByStart(r: AddrRange, excluded: seq<AddrRange>)
    ensures var sorted := ByOrder(excluded);
            && ByStart(sorted) && multiset(sorted) == multiset(excluded) && LoopInv(r, sorted, [], r.start, 0)
            && forall i :: 0 <= i < |sorted| ==> sorted[i] in excluded
  {
    var sorted := ByOrder(excluded);
    SortOrders(excluded, (e: AddrRange) => e.start);
    forall i | 0 <= i < |sorted|
      ensures sorted[i] in excluded
    {
      assert sorted[i] in multiset(sorted);
    }
  }

  lemma SameSubtraction(r: AddrRange, excluded: seq<AddrRange>, sorted: seq<AddrRange>, result: seq<AddrRange>)
    requires multiset(sorted) == multiset(excluded)
    ensures Subtracted(r, excluded, result) <==> Subtracted(r, sorted, result)
    ensures Right(r, sorted, result) ==> (Subtracted(r, sorted, result) <==> Shielded(r, sorted, |sorted|))
    ensures Right(r, sorted, result) && !Subtracted(r, sorted, result) ==> !Disjoint(result)
  {
    SameCover(excluded, sorted);
    SameCover(sorted, excluded);
  }

  // Excluded ranges whose start is above their end.

  /** The list in the order of list::sort, which is stable and for plain ranges compares starts. */
  function ByOrder(excluded: seq<AddrRange>): seq<AddrRange> {
    Sort(excluded, (e: AddrRange) => e.start)
  }

  predicate Meets(r: AddrRange, e: AddrRange) {
    r.start < e.end && e.start < r.end
  }

  /** Every inverted range with both bounds inside r comes after a proper one that reaches its start. */
  predicate Shielded(r: AddrRange, sorted: seq<AddrRange>, n: nat)
    requires n <= |sorted|
  {
    forall i :: 0 <= i < n && Meets(r, sorted[i]) && sorted[i].start > sorted[i].end ==> ShieldedAt(r, sorted, i)
  }

  predicate ShieldedAt(r: AddrRange, sorted: seq<AddrRange>, i: nat)
    requires i < |sorted|
  {
    exists k :: 0 <= k < i && Meets(r, sorted[k]) && sorted[k].start <= sorted[k].end && sorted[k].end >= sorted[i].start
  }

  /** next is the start of r or the end of a proper range seen so far, and none of these reaches further. */
  ghost predicate Reached(r: AddrRange, sorted: seq<AddrRange>, next: nat, i: nat)
    requires i <= |sorted|
  {
    && (forall k :: 0 <= k < i && Meets(r, sorted[k]) && sorted[k].start <= sorted[k].end ==> sorted[k].end <= next)
    && (next == r.start ||
        exists k :: 0 <= k < i && Meets(r, sorted[k]) && sorted[k].start <= sorted[k].end && sorted[k].end == next)
  }

  /** The result overlaps itself, or will with the next range that goes in, whose start lies before the end of result[j]. */
  ghost predicate Broken(r: AddrRange, sorted: seq<AddrRange>, result: seq<AddrRange>, next: nat, i: nat)
    requires i <= |sorted|
  {
    || !Disjoint(result)
    || (next < r.end && exists j :: 0 <= j < |result| && next < result[j].end &&
                                    forall k :: i <= k < |sorted| ==> result[j].end <= sorted[k].start)
  }

  ghost predicate LoopInv(r: AddrRange, sorted: seq<AddrRange>, result: seq<AddrRange>, next: nat, i: nat)
    requires i <= |sorted|
  {
    if Shielded(r, sorted, i) then Decided(r, sorted, result, next, i) && Reached(r, sorted, next, i)
    else Broken(r, sorted, result, next, i)
  }

  /** The turn of the loop, for element i. */
  datatype Turn = Skip | Pass(next: nat) | Gap(next: nat) | GapAndStop | Stop

  function TurnOf(r: AddrRange, e: AddrRange, next: nat): Turn {
    if !Meets(r, e) then Turn.Skip
    else if e.start <= next then
      if e.end < r.end then Pass(if next < e.end then e.end else next) else Stop
    else if e.end < r.end then Gap(e.end) else GapAndStop
  }

  lemma AppendStaysBroken(result: seq<AddrRange>, e: AddrRange)
    requires !Disjoint(result)
    ensures !Disjoint(result + [e])
  {
    var all := result + [e];
    assert forall i :: 0 <= i < |result| ==> all[i] == result[i];
  }

  /** The range that goes in next starts before the end of one that is there. */
  lemma OverlapBreaks(result: seq<AddrRange>, e: AddrRange, j: nat)
    requires j < |result| && e.start < result[j].end
    ensures !Disjoint(result + [e])
  {
    var all := result + [e];
    assert all[j] == result[j] && all[|result|] == e;
  }

  lemma PushedIsBroken(r: AddrRange, sorted: seq<AddrRange>, result: seq<AddrRange>, next: nat, i: nat, end: nat)
    requires i <= |sorted| && Broken(r, sorted, result, next, i)
    ensures !Disjoint(result + [Plain(next, end)])
  {
    if !Disjoint(result) {
      AppendStaysBroken(result, Plain(next, end));
    } else {
      var j :| 0 <= j < |result| && next < result[j].end;
      OverlapBreaks(result, Plain(next, end), j);
    }
  }

  /** An element that is not skipped, in a run that is broken. */
  lemma BrokenTurn(r: AddrRange, sorted: seq<AddrRange>, result: seq<AddrRange>, next: nat, i: nat)
    requires i < |sorted| && Broken(r, sorted, result, next, i)
    ensures match TurnOf(r, sorted[i], next)
            case Skip => Broken(r, sorted, result, next, i + 1)
            case Pass(n) => Broken(r, sorted, result, n, i + 1)
            case Stop => !Disjoint(result)
            case Gap(n) => Broken(r, sorted, result + [Plain(next, sorted[i].start)], n, i + 1)
            case GapAndStop => !Disjoint(result + [Plain(next, sorted[i].start)])
  {
    PushedIsBroken(r, sorted, result, next, i, sorted[i].start);
  }

  /** The first inverted range without a shield: the gap before it goes in, and next falls back behind it. */
  lemma UnshieldedBreaks(r: AddrRange, sorted: seq<AddrRange>, result: seq<AddrRange>, next: nat, i: nat)
    requires i < |sorted| && ByStart(sorted) && Reached(r, sorted, next, i)
    requires Meets(r, sorted[i]) && sorted[i].start > sorted[i].end && !ShieldedAt(r, sorted, i)
    ensures TurnOf(r, sorted[i], next) == Gap(sorted[i].end)
    ensures Broken(r, sorted, result + [Plain(next, sorted[i].start)], sorted[i].end, i + 1)
  {
    var all := result + [Plain(next, sorted[i].start)];
    assert all[|result|].end == sorted[i].start;
  }

  lemma NotShieldedNext(r: AddrRange, sorted: seq<AddrRange>, i: nat)
    requires i < |sorted|
    ensures Shielded(r, sorted, i + 1) <==>
              Shielded(r, sorted, i) && (Meets(r, sorted[i]) && sorted[i].start > sorted[i].end ==> ShieldedAt(r, sorted, i))
  {
  }

  /** A shielded inverted range, or a proper one, in a run that is right so far. */
  lemma RightTurn(r: AddrRange, sorted: seq<AddrRange>, result: seq<AddrRange>, next: nat, i: nat)
    requires i < |sorted| && ByStart(sorted) && r.Typed() && !r.Interleaved() && !sorted[i].Interleaved()
    requires Decided(r, sorted, result, next, i) && Reached(r, sorted, next, i)
    requires Meets(r, sorted[i]) && sorted[i].start > sorted[i].end ==> ShieldedAt(r, sorted, i)
    ensures var pushed := result + [Plain(next, sorted[i].start)];
            match TurnOf(r, sorted[i], next)
            case Skip => Decided(r, sorted, result, next, i + 1)
            case Pass(n) => Decided(r, sorted, result, n, i + 1)
            case Stop => Subtracted(r, sorted, result) && sorted[i].start <= sorted[i].end
            case Gap(n) => Decided(r, sorted, pushed, n, i + 1)
            case GapAndStop => Subtracted(r, sorted, pushed) && sorted[i].start <= sorted[i].end
  {
    var e := sorted[i];
    if Meets(r, e) && e.start > e.end {
      InvertedIsPassed(r, sorted, result, next, i);
    } else {
      match TurnOf(r, e, next)
      case Skip => Skip(r, sorted, result, next, i);
      case Pass(n) => PassOver(r, sorted, result, next, i, n);
      case Stop => RestExcluded(r, sorted, result, next, i);
      case Gap(n) =>
        PushGap(r, sorted, result, next, i);
        PassOver(r, sorted, result + [Plain(next, e.start)], e.start, i, n);
      case GapAndStop =>
        PushGap(r, sorted, result, next, i);
        RestExcluded(r, sorted, result + [Plain(next, e.start)], e.start, i);
    }
  }

  lemma InvertedIsPassed(r: AddrRange, sorted: seq<AddrRange>, result: seq<AddrRange>, next: nat, i: nat)
    requires i < |sorted| && Decided(r, sorted, result, next, i) && Reached(r, sorted, next, i)
    requires Meets(r, sorted[i]) && sorted[i].start > sorted[i].end && ShieldedAt(r, sorted, i)
    ensures TurnOf(r, sorted[i], next) == Pass(next) && Decided(r, sorted, result, next, i + 1)
  {
    var k :| 0 <= k < i && Meets(r, sorted[k]) && sorted[k].start <= sorted[k].end && sorted[k].end >= sorted[i].start;
    assert sorted[k].end <= next;
  }

  lemma ReachedNext(r: AddrRange, sorted: seq<AddrRange>, next: nat, i: nat)
    requires i < |sorted| && Reached(r, sorted, next, i)
    requires Meets(r, sorted[i]) && sorted[i].start > sorted[i].end ==> ShieldedAt(r, sorted, i)
    ensures match TurnOf(r, sorted[i], next)
            case Skip => Reached(r, sorted, next, i + 1)
            case Pass(n) => Reached(r, sorted, n, i + 1)
            case Gap(n) => Reached(r, sorted, n, i + 1)
            case _ => true
  {
    var e := sorted[i];
    if Meets(r, e) && e.start > e.end {
      var k :| 0 <= k < i && Meets(r, sorted[k]) && sorted[k].start <= sorted[k].end && sorted[k].end >= e.start;
      assert sorted[k].end <= next;
    }
  }

  /** A proper range that reaches the end of r shields all that come after it. */
  lemma StopShields(r: AddrRange, sorted: seq<AddrRange>, i: nat)
    requires i < |sorted| && Shielded(r, sorted, i)
    requires Meets(r, sorted[i]) && sorted[i].start <= sorted[i].end && r.end <= sorted[i].end
    ensures Shielded(r, sorted, |sorted|)
  {
    forall l | 0 <= l < |sorted| && Meets(r, sorted[l]) && sorted[l].start > sorted[l].end
      ensures ShieldedAt(r, sorted, l)
    {
      if l > i {
        assert sorted[i].end >= sorted[l].start;
      }
    }
  }

  lemma {:induction false} ShieldedPrefix(r: AddrRange, sorted: seq<AddrRange>, i: nat)
    requires i <= |sorted| && Shielded(r, sorted, |sorted|)
    ensures Shielded(r, sorted, i)
  {
  }

  /** The result is the subtraction, or overlaps itself because of an unshielded range. */
  ghost predicate Right(r: AddrRange, sorted: seq<AddrRange>, result: seq<AddrRange>) {
    if Shielded(r, sorted, |sorted|) then Subtracted(r, sorted, result) else !Disjoint(result)
  }

  /** What a turn of the loop makes of its invariant, and what it returns with if it stops. */
  lemma LoopTurn(r: AddrRange, sorted: seq<AddrRange>, result: seq<AddrRange>, next: nat, i: nat)
    requires i < |sorted| && ByStart(sorted) && r.Typed() && !r.Interleaved() && !sorted[i].Interleaved()
    requires LoopInv(r, sorted, result, next, i)
    ensures var pushed := result + [Plain(next, sorted[i].start)];
            match TurnOf(r, sorted[i], next)
            case Skip => LoopInv(r, sorted, result, next, i + 1)
            case Pass(n) => LoopInv(r, sorted, result, n, i + 1)
            case Gap(n) => LoopInv(r, sorted, pushed, n, i + 1)
            case Stop => Right(r, sorted, result)
            case GapAndStop => Right(r, sorted, pushed)
  {
    hide Decided, Reached, Broken, Shielded, ShieldedAt, ByStart, Disjoint, Covered;
    NotShieldedNext(r, sorted, i);
    if !Shielded(r, sorted, i) {
      BrokenTurn(r, sorted, result, next, i);
      BrokenForGood(r, sorted, i);
    } else if Meets(r, sorted[i]) && sorted[i].start > sorted[i].end && !ShieldedAt(r, sorted, i) {
      UnshieldedBreaks(r, sorted, result, next, i);
    } else {
      RightTurn(r, sorted, result, next, i);
      ReachedNext(r, sorted, next, i);
      if TurnOf(r, sorted[i], next) in {Stop, GapAndStop} {
        StopShields(r, sorted, i);
      }
    }
  }

  lemma BrokenForGood(r: AddrRange, sorted: seq<AddrRange>, i: nat)
    requires i < |sorted| && !Shielded(r, sorted, i)
    ensures !Shielded(r, sorted, |sorted|)
  {
    if Shielded(r, sorted, |sorted|) {
      ShieldedPrefix(r, sorted, i);
    }
  }

  lemma LoopEnd(r: AddrRange, sorted: seq<AddrRange>, result: seq<AddrRange>, next: nat)
    requires LoopInv(r, sorted, result, next, |sorted|)
    ensures Right(r, sorted, if next < r.end then result + [Plain(next, r.end)] else result)
  {
    if Shielded(r, sorted, |sorted|) {
      PushRest(r, sorted, result, next);
    } else {
      PushedIsBroken(r, sorted, result, next, |sorted|, r.end);
    }
  }

  lemma ProperIsShielded(r: AddrRange, excluded: seq<AddrRange>)
    requires forall i :: 0 <= i < |ByOrder(excluded)| ==> ByOrder(excluded)[i] in excluded
    ensures (forall e :: e in excluded ==> e.start <= e.end) ==> Shielded(r, ByOrder(excluded), |ByOrder(excluded)|)
  {
  }

  lemma MeetsIsIntersects(r: AddrRange, e: AddrRange)
    requires r.Typed() && !r.Interleaved() && !e.Interleaved()
    ensures r.Intersects(e) == Ok(Meets(r, e))
  {
  }

  // In terms of the addresses that the ranges contain.

  ghost predicate InSome(ranges: seq<AddrRange>, a: nat)
    requires forall e :: e in ranges ==> e.Typed()
  {
    exists i :: 0 <= i < |ranges| && ranges[i].Contains(a)
  }

  /** The result contains exactly the addresses that r contains and no excluded range does. */
  ghost predicate Excludes(r: AddrRange, excluded: seq<AddrRange>, result: seq<AddrRange>)
    requires r.Typed() && forall e :: e in excluded ==> e.Typed()
  {
    && Disjoint(result) && (forall e :: e in result ==> e.Typed())
    && forall a: nat :: InSome(result, a) <==> r.Contains(a) && !InSome(excluded, a)
  }

  /**
   No plain range with a match value other than 0, which contains nothing, stands for more: each one that is
   excluded spans only addresses of r that others exclude, and if r is one, everything is excluded.
   */
  ghost predicate Solid(r: AddrRange, excluded: seq<AddrRange>)
    requires forall e :: e in excluded ==> e.Typed()
  {
    forall a: nat :: r.InBounds(a) ==>
      if r.intlvMatch == 0 then Covered(excluded, a) ==> InSome(excluded, a) else Covered(excluded, a)
  }

  /** What exclude puts out contains every address between its bounds. */
  ghost predicate AllPlain(result: seq<AddrRange>) {
    forall i :: 0 <= i < |result| ==> result[i].Typed() && forall a: nat :: result[i].Contains(a) <==> result[i].InBounds(a)
  }

  lemma PlainIsFull(start: nat, end: nat)
    requires start < TWO64 && end < TWO64
    ensures Plain(start, end).Typed() && forall a: nat :: Plain(start, end).Contains(a) <==> start <= a < end
  {
    forall a: nat
      ensures Plain(start, end).Contains(a) <==> start <= a < end
    {
      ContainsPlain(Plain(start, end), a);
    }
  }

  lemma ContainsPlain(e: AddrRange, a: nat)
    requires e.Typed() && !e.Interleaved()
    ensures e.Contains(a) <==> e.InBounds(a) && e.intlvMatch == 0
  {
    assert Selector(e.masks, Bits(a, ADDR_BITS)) == [];
  }

  lemma NothingIsPlain()
    ensures AllPlain([])
  {
  }

  lemma PushPlain(result: seq<AddrRange>, start: nat, end: nat)
    requires AllPlain(result) && start < TWO64 && end < TWO64
    ensures AllPlain(result + [Plain(start, end)])
  {
    PlainIsFull(start, end);
  }

  lemma FullCover(result: seq<AddrRange>, a: nat)
    requires AllPlain(result)
    ensures (forall e :: e in result ==> e.Typed()) && (InSome(result, a) <==> Covered(result, a))
  {
  }

  lemma CoverOfContained(excluded: seq<AddrRange>, a: nat)
    requires forall e :: e in excluded ==> e.Typed()
    ensures InSome(excluded, a) ==> Covered(excluded, a)
  {
  }

  lemma ExcludesExactly(r: AddrRange, excluded: seq<AddrRange>, result: seq<AddrRange>)
    requires r.Typed() && !r.Interleaved() && (forall e :: e in excluded ==> e.Typed()) && AllPlain(result)
    ensures Subtracted(r, excluded, result) ==> (Excludes(r, excluded, result) <==> Solid(r, excluded))
    ensures !Disjoint(result) ==> !Excludes(r, excluded, result) && !Subtracted(r, excluded, result)
  {
    forall a: nat
      ensures (forall e :: e in result ==> e.Typed()) && (InSome(result, a) <==> Covered(result, a))
      ensures InSome(excluded, a) ==> Covered(excluded, a)
      ensures r.Contains(a) <==> r.InBounds(a) && r.intlvMatch == 0
    {
      FullCover(result, a);
      CoverOfContained(excluded, a);
      ContainsPlain(r, a);
    }
  }

  lemma ProperIsSolid(r: AddrRange, excluded: seq<AddrRange>)
    requires forall e :: e in excluded ==> e.Typed() && !e.Interleaved() && e.intlvMatch == 0
    ensures r.intlvMatch == 0 ==> Solid(r, excluded)
  {
    forall a: nat | Covered(excluded, a)
      ensures InSome(excluded, a)
    {
      var i :| 0 <= i < |excluded| && excluded[i].InBounds(a);
      ContainsPlain(excluded[i], a);
    }
  }

  /**
   The subtraction is right if and only if every inverted range in the list that has both its bounds inside r
   is shielded, and no range without addresses stands for more; for proper ranges it always is.
   */
  method ExcludeAll(r: AddrRange, excluded: seq<AddrRange>) returns (result: seq<AddrRange>)
    requires r.Typed() && !r.Interleaved()
    requires forall e :: e in excluded ==> e.Typed() && !e.Interleaved()
    ensures Excludes(r, excluded, result) <==> Shielded(r, ByOrder(excluded), |ByOrder(excluded)|) && Solid(r, excluded)
    ensures r.intlvMatch == 0 && (forall e :: e in excluded ==> e.start <= e.end && e.intlvMatch == 0) ==>
              Excludes(r, excluded, result)
  {
    result := Subtract(r, excluded);
    ExcludesExactly(r, excluded, result);
    hide Excludes, Solid, Subtracted, Shielded, ByOrder;
    if r.intlvMatch == 0 && forall e :: e in excluded ==> e.intlvMatch == 0 {
      ProperIsSolid(r, excluded);
    }
  }

  /** The loop, in terms of bounds. */
  method Subtract(r: AddrRange, excluded: seq<AddrRange>) returns (result: seq<AddrRange>)
    requires r.Typed() && !r.Interleaved()
    requires forall e :: e in excluded ==> e.Typed() && !e.Interleaved()
    ensures AllPlain(result)
    ensures Subtracted(r, excluded, result) <==> Shielded(r, ByOrder(excluded), |ByOrder(excluded)|)
    ensures !Subtracted(r, excluded, result) ==> !Disjoint(result)
    ensures (forall e :: e in excluded ==> e.start <= e.end) ==> Subtracted(r, excluded, result)
  {
    var sorted := ByOrder(excluded);
    SortedByStart(r, excluded);
    ProperIsShielded(r, excluded);
    hide ByOrder, LoopInv, Subtracted, ByStart, Shielded, AddrRange.Intersects, AllPlain, Disjoint, Right, Plain;
    result := [];
    NothingIsPlain();
    var next: nat := r.start;
    for i := 0 to |sorted|
      invariant LoopInv(r, sorted, result, next, i) && AllPlain(result) && next < TWO64
    {
      var e := sorted[i];
      assert e.start < TWO64 && e.end < TWO64 && !e.Interleaved();
      MeetsIsIntersects(r, e);
      LoopTurn(r, sorted, result, next, i);
      if r.Intersects(e) != Ok(true) {
        continue;
      }
      if e.start <= next {
        if e.end < r.end {
          if next < e.end {
            next := e.end;
          }
        } else {
          SameSubtraction(r, excluded, sorted, result);
          return;
        }
      } else {
        PushPlain(result, next, e.start);
        result := result + [Plain(next, e.start)];
        if e.end < r.end {
          next := e.end;
        } else {
          SameSubtraction(r, excluded, sorted, result);
          return;
        }
      }
    }
    LoopEnd(r, sorted, result, next);
    PushPlain(result, next, r.end);
    if next < r.end {
      result := result + [Plain(next, r.end)];
    }
    SameSubtraction(r, excluded, sorted, result);
  }

  /** [0, 10) without the inverted range from 6 to 3: the result covers [3, 6) twice. */
  lemma InvertedRangeOverlaps()
    ensures var r, e := Plain(0, 10), Plain(6, 3);
            && !Shielded(r, ByOrder([e]), |ByOrder([e])|)
            && TurnOf(r, e, 0) == Gap(3) && !Disjoint([Plain(0, 6), Plain(3, 10)])
  {
    var r, e := Plain(0, 10), Plain(6, 3);
    SortOrders([e], (x: AddrRange) => x.start);
    var sorted := ByOrder([e]);
    assert |multiset(sorted)| == 1 && sorted[0] in multiset(sorted);
    assert sorted == [e];
    var result := [Plain(0, 6), Plain(3, 10)];
    assert result[0].end > result[1].start;
    assert Meets(r, [e][0]) && !ShieldedAt(r, [e], 0);
  }

  /** [0, 10) without a plain range of match value 1 over [3, 6): that contains nothing, and still takes [3, 6) away. */
  lemma HollowRangeExcludes()
    ensures var r, e := Plain(0, 10), AddrRange(3, 6, [], 1);
            && e.Typed() && (forall a: nat :: !e.Contains(a)) && !Solid(r, [e])
            && TurnOf(r, e, 0) == Gap(6) && Subtracted(r, [e], [Plain(0, 3), Plain(6, 10)])
            && !Excludes(r, [e], [Plain(0, 3), Plain(6, 10)])
  {
    var r, e, result := Plain(0, 10), AddrRange(3, 6, [], 1), [Plain(0, 3), Plain(6, 10)];
    forall a: nat
      ensures !e.Contains(a)
      ensures Covered([e], a) <==> 3 <= a < 6
      ensures Covered(result, a) <==> a < 3 || 6 <= a < 10
    {
      ContainsPlain(e, a);
      assert [e][0].InBounds(a) <==> 3 <= a < 6;
      assert result[0].InBounds(a) <==> a < 3;
      assert result[1].InBounds(a) <==> 6 <= a < 10;
    }
    assert Covered([e], 3) && !InSome([e], 3);
    PlainIsFull(0, 3);
    PlainIsFull(6, 10);
    ExcludesExactly(r, [e], result);
  }
}
