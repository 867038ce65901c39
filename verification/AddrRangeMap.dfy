/** The address decoder of base/addr_range_map.hh: an ordered map of ranges behind a most-recently-used list. */
module AddrRangeMaps {
  import opened AddrRanges
  import opened Arith
  import opened Interleaving
  import opened Options
  import opened Words

  datatype Entry<+V> = Entry(range: AddrRange, value: V)

  /** An entry the decoder is meant for: non-empty, and more than one address per stripe. */
  predicate GoodRange(r: AddrRange) {
    && r.Typed() && r.start < r.end && r.HasGranularity()
    && (if r.Interleaved() then r.Size() > 1 else r.intlvMatch == 0)
  }

  /** Two entries that no address can belong to at once: disjoint spans, or different stripes of one span. */
  predicate Separated(a: AddrRange, b: AddrRange) {
    !a.Overlaps(b) || (a.MergesWith(b) && a.intlvMatch != b.intlvMatch)
  }

  predicate Before(a: AddrRange, b: AddrRange) {
    a.Less(b) && Separated(a, b)
  }

  /** The invariant of the map: good entries, in the order of operator<, no two for the same address. */
  ghost predicate MapInv<V>(tree: seq<Entry<V>>) {
    && (forall i :: 0 <= i < |tree| ==> GoodRange(tree[i].range))
    && (forall i, j :: 0 <= i < j < |tree| ==> Before(tree[i].range, tree[j].range))
  }

  // The search in the tree, without the cache.

  type Cond = AddrRange -> Result<bool>

  /** The number of entries that are not above r: the place of tree.upper_bound(r), searching from i. */
  function UpperBound<V>(tree: seq<Entry<V>>, r: AddrRange, i: nat): (k: nat)
    requires i <= |tree|
    ensures i <= k <= |tree|
    ensures forall j :: i <= j < k ==> !r.Less(tree[j].range)
    ensures k < |tree| ==> r.Less(tree[k].range)
    decreases |tree| - i
  {
    if i == |tree| || r.Less(tree[i].range) then i else UpperBound(tree, r, i + 1)
  }

  /** The do-while loop: backwards through the entries that merge with their successor. */
  function WalkBack<V>(tree: seq<Entry<V>>, i: nat, cond: Cond): Result<Option<AddrRange>>
    requires i < |tree|
  {
    match cond(tree[i].range)
    case Panic => Panic
    case Ok(true) => Ok(Some(tree[i].range))
    case Ok(false) =>
      if i > 0 && tree[i - 1].range.MergesWith(tree[i].range) then WalkBack(tree, i - 1, cond) else Ok(None)
  }

  function BelowUpperBound<V>(tree: seq<Entry<V>>, k: nat, cond: Cond): Result<Option<AddrRange>>
    requires k <= |tree|
  {
    if k == 0 then Ok(None) else WalkBack(tree, k - 1, cond)
  }

  function TreeFind<V>(tree: seq<Entry<V>>, r: AddrRange, cond: Cond): Result<Option<AddrRange>> {
    var k := UpperBound(tree, r, 0);
    if k == |tree| then BelowUpperBound(tree, k, cond)
    else
      match cond(tree[k].range)
      case Panic => Panic
      case Ok(true) => Ok(Some(tree[k].range))
      case Ok(false) => BelowUpperBound(tree, k, cond)
  }

  /** The reference: the first entry, in a scan of all of them, that meets the condition. */
  function Scan<V>(tree: seq<Entry<V>>, cond: Cond, i: nat): Option<AddrRange>
    requires i <= |tree|
    decreases |tree| - i
  {
    if i == |tree| then None
    else if cond(tree[i].range) == Ok(true) then Some(tree[i].range)
    else Scan(tree, cond, i + 1)
  }

  /** A condition that never panics and that only entries around address a can meet. */
  ghost predicate PointsAt<V>(tree: seq<Entry<V>>, cond: Cond, a: nat) {
    forall i :: 0 <= i < |tree| ==>
      cond(tree[i].range).Ok? && (cond(tree[i].range).value ==> tree[i].range.Typed() && tree[i].range.Contains(a))
  }

  /** No two entries contain the same address. */
  lemma AtMostOneContains<V>(tree: seq<Entry<V>>, a: nat, i: nat, j: nat)
    requires MapInv(tree) && i < |tree| && j < |tree|
    requires tree[i].range.Contains(a) && tree[j].range.Contains(a)
    ensures i == j
  {
  }

  /** Between an entry around a and the last one that starts at or before a, all entries are of one group. */
  lemma GroupUpTo<V>(tree: seq<Entry<V>>, a: nat, x: nat, i: nat)
    requires MapInv(tree) && x <= i < |tree| && tree[x].range.InBounds(a) && tree[i].range.start <= a
    ensures tree[x].range.MergesWith(tree[i].range)
  {
    if x < i {
      assert Before(tree[x].range, tree[i].range);
      assert tree[x].range.Overlaps(tree[i].range);
    }
  }

  lemma {:induction false} WalkBackFinds<V>(tree: seq<Entry<V>>, a: nat, x: nat, i: nat, cond: Cond)
    requires MapInv(tree) && x <= i < |tree| && PointsAt(tree, cond, a) && cond(tree[x].range) == Ok(true)
    requires tree[i].range.start <= a
    ensures WalkBack(tree, i, cond) == Ok(Some(tree[x].range))
    decreases i
  {
    if x < i {
      if cond(tree[i].range) == Ok(true) {
        AtMostOneContains(tree, a, x, i);
      }
      GroupUpTo(tree, a, x, i);
      assert Before(tree[i - 1].range, tree[i].range);
      GroupUpTo(tree, a, x, i - 1);
      WalkBackFinds(tree, a, x, i - 1, cond);
    }
  }

  lemma {:induction false} WalkBackMisses<V>(tree: seq<Entry<V>>, i: nat, cond: Cond)
    requires i < |tree| && forall k :: 0 <= k <= i ==> cond(tree[k].range) == Ok(false)
    ensures WalkBack(tree, i, cond) == Ok(None)
  {
    if i > 0 {
      WalkBackMisses(tree, i - 1, cond);
    }
  }

  lemma {:induction false} ScanFinds<V>(tree: seq<Entry<V>>, cond: Cond, i: nat, x: nat)
    requires i <= x < |tree| && cond(tree[x].range) == Ok(true)
    requires forall k :: i <= k < x ==> cond(tree[k].range) != Ok(true)
    ensures Scan(tree, cond, i) == Some(tree[x].range)
    decreases x - i
  {
    if i < x {
      ScanFinds(tree, cond, i + 1, x);
    }
  }

  lemma {:induction false} ScanMisses<V>(tree: seq<Entry<V>>, cond: Cond, i: nat)
    requires i <= |tree| && forall k :: i <= k < |tree| ==> cond(tree[k].range) != Ok(true)
    ensures Scan(tree, cond, i) == None
    decreases |tree| - i
  {
    if i < |tree| {
      ScanMisses(tree, cond, i + 1);
    }
  }

  lemma BothFind<V>(tree: seq<Entry<V>>, r: AddrRange, cond: Cond, x: nat)
    requires MapInv(tree) && !r.Interleaved() && PointsAt(tree, cond, r.start)
    requires x < |tree| && cond(tree[x].range) == Ok(true)
    ensures Scan(tree, cond, 0) == Some(tree[x].range) && TreeFind(tree, r, cond) == Ok(Some(tree[x].range))
  {
    forall i | 0 <= i < |tree| && cond(tree[i].range) == Ok(true)
      ensures i == x
    {
      AtMostOneContains(tree, r.start, i, x);
    }
    ScanFinds(tree, cond, 0, x);
    var k := UpperBound(tree, r, 0);
    UpperBoundAbove(tree, r, x, k);
    WalkBackFinds(tree, r.start, x, k - 1, cond);
  }

  /** A search that starts from an address finds what a scan of the whole map would find. */
  lemma TreeFindIsScan<V>(tree: seq<Entry<V>>, r: AddrRange, cond: Cond)
    requires MapInv(tree) && !r.Interleaved() && PointsAt(tree, cond, r.start)
    ensures TreeFind(tree, r, cond) == Ok(Scan(tree, cond, 0))
  {
    var k := UpperBound(tree, r, 0);
    if x :| 0 <= x < |tree| && cond(tree[x].range) == Ok(true) {
      BothFind(tree, r, cond, x);
    } else {
      ScanMisses(tree, cond, 0);
      if k > 0 {
        WalkBackMisses(tree, k - 1, cond);
      }
    }
  }

  /** Entries from the upper bound on start above a plain range's start, those before do not. */
  lemma UpperBoundAbove<V>(tree: seq<Entry<V>>, r: AddrRange, x: nat, k: nat)
    requires MapInv(tree) && !r.Interleaved() && x < |tree| && tree[x].range.start <= r.start
    requires k == UpperBound(tree, r, 0)
    ensures x < k && tree[k - 1].range.start <= r.start && (k < |tree| ==> tree[k].range.start > r.start)
  {
  }

  // contains

  function SubsetOf(r: AddrRange): Cond
    requires r.Typed()
  {
    (e: AddrRange) => if e.Typed() && e.HasGranularity() then r.IsSubset(e) else Panic
  }

  lemma SubsetPointsAt<V>(tree: seq<Entry<V>>, r: AddrRange)
    requires MapInv(tree) && r.Typed() && !r.Interleaved()
    ensures PointsAt(tree, SubsetOf(r), r.start)
  {
    forall i | 0 <= i < |tree|
      ensures var c := SubsetOf(r)(tree[i].range); c.Ok? && (c.value ==> tree[i].range.Contains(r.start))
    {
      assert GoodRange(tree[i].range);
      SelPlain(tree[i].range, r.start);
    }
  }

  lemma SelPlain(e: AddrRange, a: nat)
    requires e.Typed()
    ensures !e.Interleaved() ==> e.Sel(a) == 0
  {
  }

  /** RangeSize(a, 1), whose end wraps to 0 at the top of the address space. */
  function SingleAddr(a: nat): AddrRange {
    AddrRange(a, (a + 1) % TWO64, [], 0)
  }

  /** For a single address the condition is exactly that the entry contains it. */
  lemma SubsetOfSingle(e: AddrRange, a: nat)
    requires GoodRange(e) && a < TWO64
    ensures SingleAddr(a).Typed() && SubsetOf(SingleAddr(a))(e) == Ok(e.Contains(a))
  {
    SelPlain(e, a);
    var s := SingleAddr(a);
    assert (s.end - 1) % TWO64 == a;
    assert s.Size() == 1;
  }

  // insert

  function IntersectsWith(r: AddrRange): Cond
    requires r.Typed()
  {
    (e: AddrRange) => r.Intersects(e)
  }

  /** No single-address entry lies inside the span of an interleaved range. */
  ghost predicate NoTinyOverlap<V>(tree: seq<Entry<V>>, r: AddrRange) {
    r.Interleaved() ==> forall i :: 0 <= i < |tree| && tree[i].range.Size() == 1 ==> !r.Overlaps(tree[i].range)
  }

  function Placed<V>(tree: seq<Entry<V>>, r: AddrRange, v: V): seq<Entry<V>> {
    var k := UpperBound(tree, r, 0);
    tree[..k] + [Entry(r, v)] + tree[k..]
  }

  ghost predicate Share(r: AddrRange, e: AddrRange)
    requires r.Typed() && e.Typed()
  {
    exists a: nat :: r.Contains(a) && e.Contains(a)
  }

  /**
   Where intersects answers at all, it answers whether some address is in both ranges, except for a
   range whose stripe has no address between its bounds compared with itself.
   */
  lemma IntersectsMeans(r: AddrRange, e: AddrRange)
    requires GoodRange(r) && GoodRange(e) && r.Intersects(e).Ok?
    ensures r.Intersects(e).value <==> Share(r, e) || (r == e && forall a: nat :: !r.Contains(a))
  {
    if !r.Overlaps(e) {
    } else if !r.Interleaved() && !e.Interleaved() {
      var a := if r.start < e.start then e.start else r.start;
      SelPlain(r, a);
      SelPlain(e, a);
      assert r.Contains(a) && e.Contains(a);
    } else if e.Size() == 1 {
      SizePlain(e);
      SelPlain(e, e.start);
      assert e.Contains(e.start);
    } else {
      SameSpan(r, e);
    }
  }

  /**
   When intersects panics: the spans share an address, one of the ranges is striped, they are not stripes of one
   span, and the second is not a single address.  So a range compared with itself never panics, and meets itself.
   */
  lemma IntersectsPanics(r: AddrRange, e: AddrRange)
    requires GoodRange(r) && GoodRange(e)
    ensures r.Intersects(e) == Panic <==>
              && (exists a: nat :: r.InBounds(a) && e.InBounds(a))
              && (|r.masks| > 0 || |e.masks| > 0)
              && !(r.start == e.start && r.end == e.end && r.masks == e.masks)
              && (|e.masks| > 0 || e.end - e.start > 1)
    ensures r.Intersects(r) == Ok(true)
  {
    if r.Overlaps(e) {
      var a := if r.start < e.start then e.start else r.start;
      assert r.InBounds(a) && e.InBounds(a);
    }
    if !e.Interleaved() {
      SizePlain(e);
    }
    if !r.Interleaved() {
      SizePlain(r);
    }
  }

  lemma SameSpan(r: AddrRange, e: AddrRange)
    requires r.Typed() && e.Typed() && r.MergesWith(e)
    ensures r.intlvMatch == e.intlvMatch <==> Share(r, e) || (r == e && forall a: nat :: !r.Contains(a))
  {
    if r.intlvMatch == e.intlvMatch {
      assert r == e;
      if a: nat :| r.Contains(a) {
        assert Share(r, e);
      }
    }
  }

  lemma IntersectsFalse(r: AddrRange, e: AddrRange)
    requires GoodRange(r) && GoodRange(e) && r.Intersects(e) == Ok(false)
    requires r.Interleaved() && e.Size() == 1 ==> !r.Overlaps(e)
    ensures Separated(e, r)
  {
  }

  /** What the walk has looked at when it ends without a hit: a run of mergeable entries, as far as it goes. */
  lemma {:induction false} WalkBackNone<V>(tree: seq<Entry<V>>, i: nat, cond: Cond) returns (j: nat)
    requires i < |tree| && WalkBack(tree, i, cond) == Ok(None)
    ensures j <= i && forall m :: j <= m <= i ==> cond(tree[m].range) == Ok(false)
    ensures j > 0 ==> !tree[j - 1].range.MergesWith(tree[j].range)
  {
    if i > 0 && tree[i - 1].range.MergesWith(tree[i].range) {
      j := WalkBackNone(tree, i - 1, cond);
    } else {
      j := i;
    }
  }

  lemma AboveIsSeparated<V>(tree: seq<Entry<V>>, r: AddrRange, k: nat, m: nat)
    requires MapInv(tree) && GoodRange(r) && NoTinyOverlap(tree, r) && k <= m < |tree|
    requires r.Less(tree[k].range) && r.Intersects(tree[k].range) == Ok(false)
    ensures Separated(tree[m].range, r) && r.Less(tree[m].range)
  {
    assert GoodRange(tree[k].range) && GoodRange(tree[m].range);
    IntersectsFalse(r, tree[k].range);
    if k < m {
      assert Before(tree[k].range, tree[m].range);
    }
  }

  lemma BelowIsSeparated<V>(tree: seq<Entry<V>>, r: AddrRange, k: nat, m: nat)
    requires MapInv(tree) && GoodRange(r) && NoTinyOverlap(tree, r) && m < k <= |tree|
    requires !r.Less(tree[k - 1].range) && WalkBack(tree, k - 1, IntersectsWith(r)) == Ok(None)
    ensures Separated(tree[m].range, r)
  {
    var j := WalkBackNone(tree, k - 1, IntersectsWith(r));
    assert GoodRange(tree[m].range);
    if m < k - 1 {
      assert Before(tree[m].range, tree[k - 1].range);
    }
    if m >= j {
      assert IntersectsWith(r)(tree[m].range) == Ok(false);
      IntersectsFalse(r, tree[m].range);
    }
  }

  lemma AcceptedIsSeparated<V>(tree: seq<Entry<V>>, r: AddrRange, m: nat)
    requires MapInv(tree) && GoodRange(r) && NoTinyOverlap(tree, r) && m < |tree|
    requires TreeFind(tree, r, IntersectsWith(r)) == Ok(None)
    ensures if m < UpperBound(tree, r, 0) then Before(tree[m].range, r) else Before(r, tree[m].range)
  {
    var k := UpperBound(tree, r, 0);
    if m < k {
      BelowIsSeparated(tree, r, k, m);
      assert GoodRange(tree[m].range);
    } else {
      AboveIsSeparated(tree, r, k, m);
    }
  }

  /** A range that insert accepts keeps the map invariant exactly if it spans no single-address entry. */
  lemma InsertExact<V>(tree: seq<Entry<V>>, r: AddrRange, v: V)
    requires MapInv(tree) && GoodRange(r) && TreeFind(tree, r, IntersectsWith(r)) == Ok(None)
    ensures MapInv(Placed(tree, r, v)) <==> NoTinyOverlap(tree, r)
  {
    var k := UpperBound(tree, r, 0);
    if NoTinyOverlap(tree, r) {
      forall m | 0 <= m < |tree|
        ensures if m < k then Before(tree[m].range, r) else Before(r, tree[m].range)
      {
        AcceptedIsSeparated(tree, r, m);
      }
      PlacedInOrder(tree, r, v, k);
    } else {
      var i :| 0 <= i < |tree| && tree[i].range.Size() == 1 && r.Overlaps(tree[i].range);
      assert GoodRange(tree[i].range);
      TinyOverlapBreaks(tree, r, v, k, i);
    }
  }

  lemma TinyOverlapBreaks<V>(tree: seq<Entry<V>>, r: AddrRange, v: V, k: nat, i: nat)
    requires k == UpperBound(tree, r, 0) && i < |tree| && r.Interleaved() && r.Overlaps(tree[i].range)
    requires GoodRange(tree[i].range) && tree[i].range.Size() == 1
    ensures !MapInv(Placed(tree, r, v))
  {
    var after := Placed(tree, r, v);
    var i' := if i < k then i else i + 1;
    assert after[k].range == r && after[i'] == tree[i];
    assert !(if i < k then Before(after[i'].range, after[k].range) else Before(after[k].range, after[i'].range));
  }

  lemma PlacedAt<V>(tree: seq<Entry<V>>, r: AddrRange, v: V, k: nat)
    requires k == UpperBound(tree, r, 0)
    ensures var after := Placed(tree, r, v);
            && |after| == |tree| + 1 && after[k] == Entry(r, v)
            && (forall m :: 0 <= m < k ==> after[m] == tree[m])
            && (forall m :: k < m < |after| ==> after[m] == tree[m - 1])
  {
  }

  lemma PlacedInOrder<V>(tree: seq<Entry<V>>, r: AddrRange, v: V, k: nat)
    requires MapInv(tree) && GoodRange(r) && k == UpperBound(tree, r, 0)
    requires forall m :: 0 <= m < |tree| ==> if m < k then Before(tree[m].range, r) else Before(r, tree[m].range)
    ensures MapInv(Placed(tree, r, v))
  {
    var after := Placed(tree, r, v);
    PlacedAt(tree, r, v, k);
    hide Placed, GoodRange, Before;
    forall i, j | 0 <= i < j < |after|
      ensures Before(after[i].range, after[j].range)
    {
      if i < j < k {
        assert Before(tree[i].range, tree[j].range);
      } else if i < k < j {
        assert Before(tree[i].range, tree[j - 1].range);
      } else if k < i {
        assert Before(tree[i - 1].range, tree[j - 1].range);
      }
    }
  }

  /** The search for a conflict looks at the one entry that could have an equivalent key. */
  lemma NoEquivalentKey<V>(tree: seq<Entry<V>>, r: AddrRange)
    requires MapInv(tree) && GoodRange(r) && TreeFind(tree, r, IntersectsWith(r)) == Ok(None)
    ensures var k := UpperBound(tree, r, 0); k > 0 ==> tree[k - 1].range.Less(r)
  {
    var k := UpperBound(tree, r, 0);
    if k > 0 {
      assert GoodRange(tree[k - 1].range);
      var j := WalkBackNone(tree, k - 1, IntersectsWith(r));
      assert IntersectsWith(r)(tree[k - 1].range) == Ok(false);
    }
  }

  // The condition of InsertExact can fail: a striped range is accepted around a single address of
  // another stripe, and from then on lookups in it go astray.

  function Evens(): AddrRange {
    AddrRange(0, 16, [OneBit(0)], 0)
  }

  lemma EvensContain(a: nat)
    requires a < 16
    ensures Evens().Contains(a) <==> a % 2 == 0
  {
    var w := Bits(a, ADDR_BITS);
    ParityOneBit(w, 0);
    assert Selector(Evens().masks, w) == [w[0]];
    assert Val([w[0]]) == Bit(w[0]) + 2 * Val([]);
  }

  lemma TinyOverlapHidesAddress<V>(v: V)
    ensures var tree := [Entry(AddrRange(5, 6, [], 0), v)];
            && MapInv(tree) && GoodRange(Evens())
            && TreeFind(tree, Evens(), IntersectsWith(Evens())) == Ok(None)
            && Evens().Contains(6)
            && TreeFind(Placed(tree, Evens(), v), SingleAddr(6), SubsetOf(SingleAddr(6))) == Ok(None)
  {
    var e, r := AddrRange(5, 6, [], 0), Evens();
    EvensAreGood();
    EvensContain(5);
    EvensContain(6);
    var tree := [Entry(e, v)];
    assert UpperBound(tree, r, 0) == 0;
    assert Placed(tree, r, v) == [Entry(r, v), Entry(e, v)];
    LookupGoesAstray(v);
  }

  lemma EvensAreGood()
    ensures GoodRange(Evens()) && Evens().Size() == 8
  {
    assert Ctz(OneBit(0)) == 0 && MinLsb(Evens().masks) == 0;
  }

  /** The entry before the upper bound is the single address, and it does not merge with the striped one. */
  lemma LookupGoesAstray<V>(v: V)
    ensures TreeFind([Entry(Evens(), v), Entry(AddrRange(5, 6, [], 0), v)], SingleAddr(6), SubsetOf(SingleAddr(6))) == Ok(None)
  {
    var after := [Entry(Evens(), v), Entry(AddrRange(5, 6, [], 0), v)];
    assert UpperBound(after, SingleAddr(6), 2) == 2;
    assert UpperBound(after, SingleAddr(6), 1) == 2;
    assert WalkBack(after, 1, SubsetOf(SingleAddr(6))) == Ok(None);
  }

  // The cache: the most recently used entries, latest first, identified by their keys.

  function Without(cache: seq<AddrRange>, x: AddrRange): seq<AddrRange> {
    if cache == [] then []
    else if cache[0] == x then Without(cache[1..], x)
    else [cache[0]] + Without(cache[1..], x)
  }

  function Take(cache: seq<AddrRange>, n: nat): seq<AddrRange> {
    if |cache| <= n then cache else cache[..n]
  }

  /** Using entry x: it moves to the front, and the cache keeps its size. */
  function Touch(cache: seq<AddrRange>, x: AddrRange, max: nat): seq<AddrRange> {
    Take([x] + Without(cache, x), max)
  }

  ghost predicate Distinct(cache: seq<AddrRange>) {
    forall i, j :: 0 <= i < j < |cache| ==> cache[i] != cache[j]
  }

  predicate HasKey<V>(tree: seq<Entry<V>>, r: AddrRange) {
    exists i :: 0 <= i < |tree| && tree[i].range == r
  }

  /** Only live entries, each once, and no more than there is room for. */
  ghost predicate CacheInv<V>(cache: seq<AddrRange>, tree: seq<Entry<V>>, max: nat) {
    Distinct(cache) && |cache| <= max && forall c :: c in cache ==> HasKey(tree, c)
  }

  lemma DistinctCons(x: AddrRange, rest: seq<AddrRange>)
    requires x !in rest && Distinct(rest)
    ensures Distinct([x] + rest)
  {
    var all := [x] + rest;
    forall i, j | 0 <= i < j < |all|
      ensures all[i] != all[j]
    {
      assert all[j] == rest[j - 1] && (i > 0 ==> all[i] == rest[i - 1]);
    }
  }

  lemma {:induction false} WithoutIs(cache: seq<AddrRange>, x: AddrRange)
    ensures forall c :: c in Without(cache, x) <==> c in cache && c != x
    ensures |Without(cache, x)| <= |cache|
    ensures Distinct(cache) ==> Distinct(Without(cache, x))
  {
    if cache != [] {
      WithoutIs(cache[1..], x);
      if Distinct(cache) && cache[0] != x {
        assert cache[0] !in cache[1..];
        DistinctCons(cache[0], Without(cache[1..], x));
      }
    }
  }

  lemma {:induction false} WithoutAbsent(cache: seq<AddrRange>, x: AddrRange)
    requires x !in cache
    ensures Without(cache, x) == cache
  {
    if cache != [] {
      WithoutAbsent(cache[1..], x);
    }
  }

  lemma {:induction false} WithoutAt(cache: seq<AddrRange>, c: nat)
    requires c < |cache| && Distinct(cache)
    ensures Without(cache, cache[c]) == cache[..c] + cache[c + 1..]
  {
    if c == 0 {
      WithoutAbsent(cache[1..], cache[0]);
    } else {
      WithoutAt(cache[1..], c - 1);
    }
  }

  lemma TouchKeepsCache<V>(cache: seq<AddrRange>, tree: seq<Entry<V>>, x: AddrRange, max: nat)
    requires CacheInv(cache, tree, max) && HasKey(tree, x)
    ensures CacheInv(Touch(cache, x, max), tree, max)
  {
    WithoutIs(cache, x);
    var all := [x] + Without(cache, x);
    DistinctCons(x, Without(cache, x));
    forall c | c in Touch(cache, x, max)
      ensures c in all
    {
    }
  }

  /** The first cached entry that meets the condition; a panic on the way ends the search. */
  function CacheFind(cache: seq<AddrRange>, cond: Cond, i: nat): Result<Option<nat>>
    requires i <= |cache|
    decreases |cache| - i
  {
    if i == |cache| then Ok(None)
    else
      match cond(cache[i])
      case Panic => Panic
      case Ok(true) => Ok(Some(i))
      case Ok(false) => CacheFind(cache, cond, i + 1)
  }

  function Lookup<V>(cache: seq<AddrRange>, tree: seq<Entry<V>>, r: AddrRange, cond: Cond): Result<Option<AddrRange>> {
    match CacheFind(cache, cond, 0)
    case Panic => Panic
    case Ok(Some(c)) => if c < |cache| then Ok(Some(cache[c])) else Panic
    case Ok(None) => TreeFind(tree, r, cond)
  }

  function Used(cache: seq<AddrRange>, found: Result<Option<AddrRange>>, max: nat): seq<AddrRange> {
    if found.Ok? && found.value.Some? then Touch(cache, found.value.value, max) else cache
  }

  lemma Promoted(cache: seq<AddrRange>, c: nat, max: nat)
    requires c < |cache| <= max && Distinct(cache)
    ensures [cache[c]] + cache[..c] + cache[c + 1..] == Touch(cache, cache[c], max)
  {
    WithoutAt(cache, c);
    Associates([cache[c]], cache[..c], cache[c + 1..]);
  }

  /** The tree without its entry for p. */
  function Erased<V>(tree: seq<Entry<V>>, p: AddrRange): seq<Entry<V>> {
    if tree == [] then [] else if tree[0].range == p then tree[1..] else [tree[0]] + Erased(tree[1..], p)
  }

  lemma {:induction false} ErasedAt<V>(tree: seq<Entry<V>>, i: nat)
    requires i < |tree| && forall k :: 0 <= k < i ==> tree[k].range != tree[i].range
    ensures Erased(tree, tree[i].range) == tree[..i] + tree[i + 1..]
  {
    if i > 0 {
      ErasedAt(tree[1..], i - 1);
      assert tree[1..][..i - 1] == tree[1..i] && tree[1..][i..] == tree[i + 1..];
    }
  }

  class AddrRangeMap<V> {
    const maxCacheSize: nat
    var tree: seq<Entry<V>>
    var cache: seq<AddrRange>

    ghost predicate Valid()
      reads this
    {
      MapInv(tree) && CacheInv(cache, tree, maxCacheSize)
    }

    constructor (maxCacheSize: nat)
      ensures Valid() && tree == [] && cache == [] && this.maxCacheSize == maxCacheSize
    {
      this.maxCacheSize := maxCacheSize;
      tree, cache := [], [];
    }

    method AddNewEntryToCache(it: AddrRange)
      requires CacheInv(cache, tree, maxCacheSize) && it !in cache
      modifies this`cache
      ensures cache == Touch(old(cache), it, maxCacheSize)
    {
      WithoutAbsent(cache, it);
      if maxCacheSize != 0 {
        if |cache| >= maxCacheSize {
          var last := |cache| - 1;
          cache := cache[last := it];
          if maxCacheSize > 1 {
            cache := [cache[last]] + cache[..last];
          }
        } else {
          cache := [it] + cache;
        }
      }
    }

    method Find(r: AddrRange, cond: Cond) returns (found: Result<Option<AddrRange>>)
      requires CacheInv(cache, tree, maxCacheSize)
      modifies this`cache
      ensures found == Lookup(old(cache), tree, r, cond)
      ensures cache == Used(old(cache), found, maxCacheSize)
    {
      hide Touch, TreeFind;
      for c := 0 to |cache|
        invariant cache == old(cache) && CacheFind(cache, cond, 0) == CacheFind(cache, cond, c)
        invariant forall k :: 0 <= k < c ==> cond(cache[k]) == Ok(false)
      {
        var hit := cond(cache[c]);
        if hit == Panic {
          return Panic;
        }
        if hit == Ok(true) {
          found := Ok(Some(cache[c]));
          Promoted(cache, c, maxCacheSize);
          cache := [cache[c]] + cache[..c] + cache[c + 1..];
          return;
        }
      }
      found := Search(r, cond);
    }

    /** The part of find after the cache. */
    method Search(r: AddrRange, cond: Cond) returns (found: Result<Option<AddrRange>>)
      requires CacheInv(cache, tree, maxCacheSize) && forall c :: c in cache ==> cond(c) == Ok(false)
      modifies this`cache
      ensures found == TreeFind(tree, r, cond)
      ensures cache == Used(old(cache), found, maxCacheSize)
    {
      var next := UpperBound(tree, r, 0);
      if next < |tree| {
        var hit := cond(tree[next].range);
        if hit == Panic {
          return Panic;
        }
        if hit == Ok(true) {
          AddNewEntryToCache(tree[next].range);
          return Ok(Some(tree[next].range));
        }
      }
      if next == 0 {
        return Ok(None);
      }
      var i := next - 1;
      while true
        invariant 0 <= i < |tree| && cache == old(cache)
        invariant WalkBack(tree, i, cond) == WalkBack(tree, next - 1, cond)
        decreases i
      {
        var hit := cond(tree[i].range);
        if hit == Panic {
          return Panic;
        }
        if hit == Ok(true) {
          AddNewEntryToCache(tree[i].range);
          return Ok(Some(tree[i].range));
        }
        if i == 0 || !tree[i - 1].range.MergesWith(tree[i].range) {
          return Ok(None);
        }
        i := i - 1;
      }
    }

    /** The iterator to the entry around address a, or end(); what the cache holds makes no difference. */
    method ContainsAddr(a: nat) returns (found: Option<AddrRange>)
      requires Valid() && a < TWO64
      modifies this`cache
      ensures Valid() && found == Scan(tree, SubsetOf(SingleAddr(a)), 0)
      ensures found.Some? ==> HasKey(tree, found.value) && GoodRange(found.value) && found.value.Contains(a)
      ensures found == None ==> forall i :: 0 <= i < |tree| ==> GoodRange(tree[i].range) && !tree[i].range.Contains(a)
      ensures cache == Used(old(cache), Ok(found), maxCacheSize)
    {
      var r := ContainsRange(SingleAddr(a));
      found := r.value;
      ScanIsFirst(tree, SubsetOf(SingleAddr(a)), 0);
      forall i | 0 <= i < |tree|
        ensures SubsetOf(SingleAddr(a))(tree[i].range) == Ok(tree[i].range.Contains(a))
      {
        SubsetOfSingle(tree[i].range, a);
      }
    }

    method ContainsRange(r: AddrRange) returns (found: Result<Option<AddrRange>>)
      requires Valid() && r.Typed()
      modifies this`cache
      ensures Valid() && found == Lookup(old(cache), tree, r, SubsetOf(r))
      ensures !r.Interleaved() ==> found == Ok(Scan(tree, SubsetOf(r), 0))
      ensures cache == Used(old(cache), found, maxCacheSize)
    {
      found := Find(r, SubsetOf(r));
      LookupFindsKey(old(cache), tree, r, SubsetOf(r));
      if found.Ok? && found.value.Some? {
        TouchKeepsCache(old(cache), tree, found.value.value, maxCacheSize);
      }
      if !r.Interleaved() {
        SubsetPointsAt(tree, r);
        CacheIsTransparent(old(cache), tree, r, SubsetOf(r), maxCacheSize);
      }
    }

    method Insert(r: AddrRange, v: V) returns (it: Result<Option<AddrRange>>)
      requires Valid() && GoodRange(r)
      modifies this
      ensures it == Panic || it == Ok(None) ==> tree == old(tree) && Valid()
      ensures it.Ok? && it.value.Some? ==> it.value.value == r && tree == Placed(old(tree), r, v) && cache == old(cache)
      ensures it.Ok? && it.value.Some? ==> (Valid() <==> NoTinyOverlap(old(tree), r))
      ensures it.Ok? && it.value.Some? <==> Lookup(old(cache), old(tree), r, IntersectsWith(r)) == Ok(None)
      ensures it == Panic <==> Lookup(old(cache), old(tree), r, IntersectsWith(r)) == Panic
      ensures cache == Used(old(cache), Lookup(old(cache), old(tree), r, IntersectsWith(r)), maxCacheSize)
    {
      var conflict := Find(r, IntersectsWith(r));
      LookupFindsKey(old(cache), tree, r, IntersectsWith(r));
      if conflict == Panic {
        return Panic;
      }
      if conflict.value.Some? {
        TouchKeepsCache(old(cache), tree, conflict.value.value, maxCacheSize);
        return Ok(None);
      }
      NoEquivalentKey(tree, r);
      var k := UpperBound(tree, r, 0);
      assert k > 0 ==> tree[k - 1].range.Less(r);  // no equivalent key, so the entry does go in
      InsertExact(tree, r, v);
      PlacedHasKeys(tree, r, v);
      tree := Placed(tree, r, v);
      it := Ok(Some(r));
    }

    method Erase(p: AddrRange)
      requires Valid() && HasKey(tree, p)
      modifies this
      ensures Valid() && cache == Without(old(cache), p) && tree == Erased(old(tree), p)
      ensures !HasKey(tree, p) && |tree| == |old(tree)| - 1
      ensures forall e :: e in tree <==> e in old(tree) && e.range != p
    {
      cache := Without(cache, p);
      var i := 0;
      while tree[i].range != p
        invariant 0 <= i < |tree| && forall k :: 0 <= k < i ==> tree[k].range != p
        decreases |tree| - i
      {
        i := i + 1;
      }
      ErasedIs(tree, i, old(cache), maxCacheSize);
      ErasedAt(tree, i);
      tree := tree[..i] + tree[i + 1..];
    }

    method Clear()
      modifies this
      ensures Valid() && tree == [] && cache == []
    {
      cache := [];
      tree := [];
    }
  }

  lemma {:induction false} ScanIsFirst<V>(tree: seq<Entry<V>>, cond: Cond, i: nat)
    requires i <= |tree|
    ensures match Scan(tree, cond, i)
            case None => forall k :: i <= k < |tree| ==> cond(tree[k].range) != Ok(true)
            case Some(e) => cond(e) == Ok(true) && exists k :: i <= k < |tree| && tree[k].range == e
    decreases |tree| - i
  {
    if i < |tree| {
      if cond(tree[i].range) == Ok(true) {
        assert tree[i].range == Scan(tree, cond, i).value;
      } else {
        ScanIsFirst(tree, cond, i + 1);
      }
    }
  }

  lemma {:induction false} CacheFindIs(cache: seq<AddrRange>, cond: Cond, i: nat)
    requires i <= |cache|
    ensures match CacheFind(cache, cond, i)
            case Panic => exists c :: c in cache && cond(c) == Panic
            case Ok(Some(k)) => k < |cache| && cond(cache[k]) == Ok(true)
            case Ok(None) => forall k :: i <= k < |cache| ==> cond(cache[k]) == Ok(false)
    decreases |cache| - i
  {
    if i < |cache| {
      if cond(cache[i]) == Panic {
        assert cache[i] in cache;
      } else {
        CacheFindIs(cache, cond, i + 1);
      }
    }
  }

  lemma {:induction false} WalkBackFindsKey<V>(tree: seq<Entry<V>>, i: nat, cond: Cond)
    requires i < |tree|
    ensures var f := WalkBack(tree, i, cond); f.Ok? && f.value.Some? ==> HasKey(tree, f.value.value)
  {
    if i > 0 {
      WalkBackFindsKey(tree, i - 1, cond);
    }
  }

  lemma LookupFindsKey<V>(cache: seq<AddrRange>, tree: seq<Entry<V>>, r: AddrRange, cond: Cond)
    requires forall c :: c in cache ==> HasKey(tree, c)
    ensures var f := Lookup(cache, tree, r, cond); f.Ok? && f.value.Some? ==> HasKey(tree, f.value.value)
  {
    var k := UpperBound(tree, r, 0);
    if k > 0 {
      WalkBackFindsKey(tree, k - 1, cond);
    }
  }

  /** For a condition that points at an address, looking into the cache first changes nothing. */
  lemma CacheIsTransparent<V>(cache: seq<AddrRange>, tree: seq<Entry<V>>, r: AddrRange, cond: Cond, max: nat)
    requires MapInv(tree) && CacheInv(cache, tree, max) && !r.Interleaved() && PointsAt(tree, cond, r.start)
    ensures Lookup(cache, tree, r, cond) == TreeFind(tree, r, cond) == Ok(Scan(tree, cond, 0))
  {
    TreeFindIsScan(tree, r, cond);
    forall c | c in cache
      ensures cond(c).Ok?
    {
      assert HasKey(tree, c);
    }
    CacheFindIs(cache, cond, 0);
    ScanIsFirst(tree, cond, 0);
    match CacheFind(cache, cond, 0)
    case Panic =>
    case Ok(Some(k)) =>
      assert HasKey(tree, cache[k]);
      var x :| 0 <= x < |tree| && tree[x].range == cache[k];
      var e := Scan(tree, cond, 0).value;
      var y :| 0 <= y < |tree| && tree[y].range == e;
      AtMostOneContains(tree, r.start, x, y);
    case Ok(None) =>
  }

  lemma PlacedHasKeys<V>(tree: seq<Entry<V>>, r: AddrRange, v: V)
    ensures forall c :: HasKey(tree, c) ==> HasKey(Placed(tree, r, v), c)
  {
    var k, after := UpperBound(tree, r, 0), Placed(tree, r, v);
    forall c | HasKey(tree, c)
      ensures HasKey(after, c)
    {
      var i :| 0 <= i < |tree| && tree[i].range == c;
      assert after[if i < k then i else i + 1] == tree[i];
    }
  }

  lemma ErasedIs<V>(tree: seq<Entry<V>>, i: nat, cache: seq<AddrRange>, max: nat)
    requires MapInv(tree) && i < |tree| && CacheInv(cache, tree, max)
    ensures var after := tree[..i] + tree[i + 1..];
            && MapInv(after) && !HasKey(after, tree[i].range)
            && (forall e :: e in after <==> e in tree && e.range != tree[i].range)
            && CacheInv(Without(cache, tree[i].range), after, max)
  {
    var after := tree[..i] + tree[i + 1..];
    assert forall k :: 0 <= k < |after| ==> after[k] == tree[if k < i then k else k + 1];
    OtherKeysDiffer(tree, i);
    WithoutIs(cache, tree[i].range);
    forall k | 0 <= k < |tree| && k != i
      ensures tree[k] in after
    {
      assert after[if k < i then k else k - 1] == tree[k];
    }
  }

  lemma OtherKeysDiffer<V>(tree: seq<Entry<V>>, i: nat)
    requires MapInv(tree) && i < |tree|
    ensures forall k :: 0 <= k < |tree| && k != i ==> tree[k].range != tree[i].range
  {
    forall k | 0 <= k < |tree| && k != i
      ensures tree[k].range != tree[i].range
    {
      assert k < i ==> Before(tree[k].range, tree[i].range);
      assert i < k ==> Before(tree[i].range, tree[k].range);
    }
  }

  lemma Associates(a: seq<AddrRange>, b: seq<AddrRange>, c: seq<AddrRange>)
    ensures a + (b + c) == (a + b) + c
  {
  }

  lemma {:induction false} WithoutAppend(a: seq<AddrRange>, b: seq<AddrRange>, x: AddrRange)
    ensures Without(a + b, x) == Without(a, x) + Without(b, x)
  {
    if a == [] {
      assert a + b == b;
    } else {
      var first := if a[0] == x then [] else [a[0]];
      assert Without(a, x) == first + Without(a[1..], x);
      assert Without(a + b, x) == first + Without((a + b)[1..], x);
      hide Without;
      WithoutAppend(a[1..], b, x);
      assert (a + b)[1..] == a[1..] + b;
      Associates(first, Without(a[1..], x), Without(b, x));
    }
  }

  lemma {:induction false} WithoutLosesOne(a: seq<AddrRange>, x: AddrRange)
    requires Distinct(a)
    ensures |Without(a, x)| >= |a| - 1
  {
    if a != [] {
      if a[0] == x {
        assert x !in a[1..];
        WithoutAbsent(a[1..], x);
      } else {
        WithoutLosesOne(a[1..], x);
      }
    }
  }

  lemma TouchTaken(all: seq<AddrRange>, x: AddrRange, max: nat)
    requires Distinct(all)
    ensures Touch(Take(all, max), x, max) == Take([x] + Without(all, x), max)
  {
    if |all| > max {
      var a, b := all[..max], all[max..];
      assert all == a + b;
      WithoutAppend(a, b, x);
      WithoutLosesOne(a, x);
      assert [x] + (Without(a, x) + Without(b, x)) == ([x] + Without(a, x)) + Without(b, x);
    }
  }
}
