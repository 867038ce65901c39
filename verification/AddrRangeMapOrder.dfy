/**
 The order of base/addr_range_map.hh: entries by start, and the stripes of one span by match value,
 so that whoever walks the map can hand the stripes of a span to the merging constructor as they come.
 */
module AddrRangeMapOrder {
  import opened AddrRangeMaps
  import opened AddrRanges
  import opened Options
  import opened RangeConstructors
  import opened Words

  /** operator< is lexicographic: by start, striped ranges first, and these by match value. */
  lemma LessIsLexicographic(x: AddrRange, y: AddrRange)
    ensures x.Less(y) <==>
              || x.start < y.start
              || (x.start == y.start && |x.masks| > 0 && (|y.masks| == 0 || x.intlvMatch < y.intlvMatch))
  {
  }

  /** Entries of a valid map that start together are stripes of one span, in increasing order of match value. */
  lemma EntriesInOrder<V>(tree: seq<Entry<V>>, i: nat, j: nat)
    requires MapInv(tree) && i < j < |tree|
    ensures var x, y := tree[i].range, tree[j].range;
            && x.start <= y.start
            && (x.start == y.start ==> x.end == y.end && x.masks == y.masks && x.intlvMatch < y.intlvMatch)
            && (x.start < y.start ==> x.end <= y.start)
  {
    assert Before(tree[i].range, tree[j].range);
    LessIsLexicographic(tree[i].range, tree[j].range);
  }

  lemma BetweenStripes<V>(tree: seq<Entry<V>>, i: nat, k: nat, j: nat)
    requires MapInv(tree) && i < k < j < |tree| && tree[i].range.start == tree[j].range.start
    ensures tree[i].range.intlvMatch < tree[k].range.intlvMatch < tree[j].range.intlvMatch
  {
    EntriesInOrder(tree, i, k);
    EntriesInOrder(tree, k, j);
  }

  /** The stripes m and m + 1 of a span are neighbours. */
  lemma NextStripeIsNext<V>(tree: seq<Entry<V>>, i: nat, j: nat)
    requires MapInv(tree) && i < |tree| && j < |tree|
    requires tree[j].range == tree[i].range.(intlvMatch := tree[i].range.intlvMatch + 1)
    ensures j == i + 1
  {
    if j < i {
      EntriesInOrder(tree, j, i);
    } else if j > i + 1 {
      BetweenStripes(tree, i, i + 1, j);
    }
  }

  /** All stripes of the span of r have an entry. */
  ghost predicate AllStripes<V>(tree: seq<Entry<V>>, r: AddrRange) {
    forall m: nat {:trigger r.(intlvMatch := m)} :: m < Pow2(|r.masks|) ==> HasKey(tree, r.(intlvMatch := m))
  }

  lemma {:induction false} StripesFrom<V>(tree: seq<Entry<V>>, r: AddrRange, lo: nat, m: nat)
    requires MapInv(tree) && AllStripes(tree, r) && m < Pow2(|r.masks|)
    requires lo < |tree| && tree[lo].range == r.(intlvMatch := 0)
    ensures lo + m < |tree| && tree[lo + m].range == r.(intlvMatch := m)
  {
    if m > 0 {
      StripesFrom(tree, r, lo, m - 1);
      assert HasKey(tree, r.(intlvMatch := m));
      var j :| 0 <= j < |tree| && tree[j].range == r.(intlvMatch := m);
      NextStripeIsNext(tree, lo + m - 1, j);
    }
  }

  function RangesOf<V>(tree: seq<Entry<V>>, lo: nat, n: nat): seq<AddrRange>
    requires lo + n <= |tree|
  {
    seq(n, i requires 0 <= i < n => tree[lo + i].range)
  }

  /**
   When all 2^n stripes of a span are in the map, n from 1 to 8, they stand next to each other, no other entry
   before them merges with them, and the merging constructor accepts them as they come.
   */
  lemma StripesAreAdjacent<V>(tree: seq<Entry<V>>, r: AddrRange) returns (lo: nat)
    requires MapInv(tree) && AllStripes(tree, r) && 1 <= |r.masks| <= 8
    ensures lo + Pow2(|r.masks|) <= |tree|
    ensures forall m :: 0 <= m < Pow2(|r.masks|) ==> tree[lo + m].range == r.(intlvMatch := m)
    ensures Mergeable(RangesOf(tree, lo, Pow2(|r.masks|)))
    ensures lo > 0 ==> !tree[lo - 1].range.MergesWith(r)
    ensures forall j :: lo + Pow2(|r.masks|) <= j < |tree| && tree[j].range.MergesWith(r) ==>
              tree[j].range.intlvMatch >= Pow2(|r.masks|)
  {
    hide MapInv, Pow2, Mergeable;
    var n := Pow2(|r.masks|);
    assert HasKey(tree, r.(intlvMatch := 0));
    lo :| 0 <= lo < |tree| && tree[lo].range == r.(intlvMatch := 0);
    forall m: nat | m < n
      ensures lo + m < |tree| && tree[lo + m].range == r.(intlvMatch := m)
    {
      StripesFrom(tree, r, lo, m);
    }
    StripesFrom(tree, r, lo, n - 1);
    StripesMergeable(r);
    hide AllStripes;
    assert RangesOf(tree, lo, n) == Stripes(r);
    NoMoreStripes(tree, r, lo, n);
  }

  lemma NoMoreStripes<V>(tree: seq<Entry<V>>, r: AddrRange, lo: nat, n: nat)
    requires MapInv(tree) && n > 0 && lo + n <= |tree|
    requires tree[lo].range == r.(intlvMatch := 0) && tree[lo + n - 1].range == r.(intlvMatch := n - 1)
    ensures lo > 0 ==> !tree[lo - 1].range.MergesWith(r)
    ensures forall j :: lo + n <= j < |tree| && tree[j].range.MergesWith(r) ==> tree[j].range.intlvMatch >= n
  {
    if lo > 0 {
      EntriesInOrder(tree, lo - 1, lo);
    }
    forall j | lo + n <= j < |tree| && tree[j].range.MergesWith(r)
      ensures tree[j].range.intlvMatch >= n
    {
      EntriesInOrder(tree, lo + n - 1, j);
    }
  }
}
