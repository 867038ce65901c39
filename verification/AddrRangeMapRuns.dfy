/** Whole runs of the address decoder of base/addr_range_map.hh, with a cache of any size. */
module AddrRangeMapRuns {
  import opened AddrRangeMaps
  import opened AddrRanges
  import opened Arith
  import opened Options

  datatype Op<V> =
    | Insert(r: AddrRange, v: V)
    | Erase(p: AddrRange)
    | Find(a: nat)              // contains, of an address
    | FindRange(q: AddrRange)   // contains, of a range
    | Clear

  /** insert finds no conflict in the tree. */
  predicate Accepts<V>(tree: seq<Entry<V>>, r: AddrRange)
    requires r.Typed()
  {
    TreeFind(tree, r, IntersectsWith(r)) == Ok(None)
  }

  /** The map without a cache. */
  function Apply<V>(tree: seq<Entry<V>>, op: Op<V>): seq<Entry<V>> {
    match op
    case Insert(r, v) => if r.Typed() && Accepts(tree, r) then Placed(tree, r, v) else tree
    case Erase(p) => Erased(tree, p)
    case Find(a) => tree
    case FindRange(q) => tree
    case Clear => []
  }

  function After<V>(ops: seq<Op<V>>): seq<Entry<V>> {
    if ops == [] then [] else Apply(After(ops[..|ops| - 1]), ops[|ops| - 1])
  }

  /** What insert does after its search for a conflict: accept, refuse, or end the program. */
  function Outcome(r: AddrRange, conflict: Result<Option<AddrRange>>): Result<Option<AddrRange>> {
    match conflict
    case Panic => Panic
    case Ok(None) => Ok(Some(r))
    case Ok(Some(_)) => Ok(None)
  }

  /** The entry that the search of a lookup, or insert's search for a conflict, comes to. */
  function Hit<V>(cache: seq<AddrRange>, tree: seq<Entry<V>>, op: Op<V>): Result<Option<AddrRange>> {
    match op
    case Insert(r, v) => if r.Typed() then Lookup(cache, tree, r, IntersectsWith(r)) else Panic
    case Find(a) => if a < TWO64 then Ok(Scan(tree, SubsetOf(SingleAddr(a)), 0)) else Panic
    case FindRange(q) => if q.Typed() then Ok(Scan(tree, SubsetOf(q), 0)) else Panic
    case _ => Ok(None)
  }

  /** What the caller sees: the entry that a scan finds, or the outcome of an insertion. */
  function Answer<V>(cache: seq<AddrRange>, tree: seq<Entry<V>>, op: Op<V>): Result<Option<AddrRange>> {
    if op.Insert? then Outcome(op.r, Hit(cache, tree, op)) else Hit(cache, tree, op)
  }

  /** A range that insert accepts must not span a single-address entry; see InsertExact. */
  ghost predicate Legal<V>(tree: seq<Entry<V>>, op: Op<V>) {
    match op
    case Insert(r, v) => GoodRange(r) && (Accepts(tree, r) ==> NoTinyOverlap(tree, r))
    case Erase(p) => HasKey(tree, p)
    case Find(a) => a < TWO64
    case FindRange(q) => q.Typed() && !q.Interleaved()
    case Clear => true
  }

  lemma SeparatedDoNotIntersect(r: AddrRange, e: AddrRange)
    requires GoodRange(r) && GoodRange(e) && Separated(e, r)
    ensures r.Intersects(e) == Ok(false)
  {
  }

  lemma EntryDoesNotIntersect<V>(tree: seq<Entry<V>>, r: AddrRange, c: AddrRange)
    requires MapInv(tree) && GoodRange(r) && NoTinyOverlap(tree, r) && Accepts(tree, r) && HasKey(tree, c)
    ensures IntersectsWith(r)(c) == Ok(false)
  {
    var m :| 0 <= m < |tree| && tree[m].range == c;
    AcceptedIsSeparated(tree, r, m);
    SeparatedDoNotIntersect(r, c);
  }

  /** Whether insert accepts a range that spans no single-address entry does not depend on what the cache holds. */
  lemma CacheDoesNotDecideInsert<V>(cache: seq<AddrRange>, tree: seq<Entry<V>>, r: AddrRange, max: nat)
    requires MapInv(tree) && CacheInv(cache, tree, max) && GoodRange(r) && (Accepts(tree, r) ==> NoTinyOverlap(tree, r))
    ensures Lookup(cache, tree, r, IntersectsWith(r)) == Ok(None) <==> Accepts(tree, r)
  {
    CacheFindIs(cache, IntersectsWith(r), 0);
    hide MapInv, GoodRange, NoTinyOverlap, TreeFind, AddrRange.Intersects;
    if Accepts(tree, r) {
      forall c | c in cache
        ensures IntersectsWith(r)(c) == Ok(false)
      {
        EntryDoesNotIntersect(tree, r, c);
      }
    }
  }

  // When the cache decides what insert does.

  /** insert comes to the same outcome with every valid cache as without one. */
  ghost predicate SameOutcome<V>(tree: seq<Entry<V>>, r: AddrRange, max: nat)
    requires r.Typed()
  {
    forall cache :: CacheInv(cache, tree, max) ==>
      Outcome(r, Lookup(cache, tree, r, IntersectsWith(r))) == Outcome(r, TreeFind(tree, r, IntersectsWith(r)))
  }

  predicate Has<V>(tree: seq<Entry<V>>, r: AddrRange, answer: Result<bool>)
    requires r.Typed()
  {
    exists i :: 0 <= i < |tree| && r.Intersects(tree[i].range) == answer
  }

  /**
   No entry makes the intersection test panic while another one meets it, and if the search finds no
   conflict there is none.
   */
  predicate OneKindOfConflict<V>(tree: seq<Entry<V>>, r: AddrRange)
    requires r.Typed()
  {
    && !(Has(tree, r, Panic) && Has(tree, r, Ok(true)))
    && (Accepts(tree, r) ==> !Has(tree, r, Panic) && !Has(tree, r, Ok(true)))
  }

  /** The search of the tree comes to an entry that meets the condition, or panics at one that makes it. */
  lemma {:induction false} WalkBackIs<V>(tree: seq<Entry<V>>, i: nat, cond: Cond)
    requires i < |tree|
    ensures match WalkBack(tree, i, cond)
            case Panic => exists k :: 0 <= k < |tree| && cond(tree[k].range) == Panic
            case Ok(Some(x)) => exists k :: 0 <= k < |tree| && tree[k].range == x && cond(x) == Ok(true)
            case Ok(None) => true
  {
    if i > 0 {
      WalkBackIs(tree, i - 1, cond);
    }
  }

  lemma TreeFindIs<V>(tree: seq<Entry<V>>, r: AddrRange)
    requires r.Typed()
    ensures match TreeFind(tree, r, IntersectsWith(r))
            case Panic => Has(tree, r, Panic)
            case Ok(Some(x)) => Has(tree, r, Ok(true))
            case Ok(None) => Accepts(tree, r)
  {
    var k := UpperBound(tree, r, 0);
    if k > 0 {
      WalkBackIs(tree, k - 1, IntersectsWith(r));
    }
  }

  lemma CacheFindKind<V>(cache: seq<AddrRange>, tree: seq<Entry<V>>, r: AddrRange, max: nat)
    requires r.Typed() && CacheInv(cache, tree, max)
    ensures match CacheFind(cache, IntersectsWith(r), 0)
            case Panic => Has(tree, r, Panic)
            case Ok(Some(k)) => k < |cache| && Has(tree, r, Ok(true))
            case Ok(None) => true
  {
    CacheFindIs(cache, IntersectsWith(r), 0);
    hide AddrRange.Intersects;
    match CacheFind(cache, IntersectsWith(r), 0)
    case Panic =>
      var c :| c in cache && IntersectsWith(r)(c) == Panic;
      assert HasKey(tree, c);
    case Ok(Some(k)) => assert HasKey(tree, cache[k]);
    case Ok(None) =>
  }

  lemma OneKindIsSame<V>(tree: seq<Entry<V>>, r: AddrRange, cache: seq<AddrRange>, max: nat)
    requires r.Typed() && OneKindOfConflict(tree, r) && CacheInv(cache, tree, max)
    ensures Outcome(r, Lookup(cache, tree, r, IntersectsWith(r))) == Outcome(r, TreeFind(tree, r, IntersectsWith(r)))
  {
    TreeFindIs(tree, r);
    CacheFindKind(cache, tree, r, max);
    hide Has, TreeFind, CacheFind;
  }

  /** A cache that holds just one entry, which is not without conflict, decides by that entry. */
  lemma OneCached<V>(tree: seq<Entry<V>>, r: AddrRange, i: nat, max: nat)
    requires r.Typed() && i < |tree| && max >= 1 && r.Intersects(tree[i].range) != Ok(false)
    ensures CacheInv([tree[i].range], tree, max)
    ensures Lookup([tree[i].range], tree, r, IntersectsWith(r)) ==
              if r.Intersects(tree[i].range) == Panic then Panic else Ok(Some(tree[i].range))
  {
    assert HasKey(tree, tree[i].range);
    hide AddrRange.Intersects, TreeFind;
    assert CacheFind([tree[i].range], IntersectsWith(r), 0) ==
           if IntersectsWith(r)(tree[i].range) == Panic then Panic else Ok(Some(0));
  }

  /** Whatever the map: the cache decides between accepting, refusing and panicking exactly if there are two kinds of conflict. */
  lemma CacheDecidesExactly<V>(tree: seq<Entry<V>>, r: AddrRange, max: nat)
    requires r.Typed() && max >= 1
    ensures SameOutcome(tree, r, max) <==> OneKindOfConflict(tree, r)
  {
    if OneKindOfConflict(tree, r) {
      forall cache | CacheInv(cache, tree, max)
        ensures Outcome(r, Lookup(cache, tree, r, IntersectsWith(r))) == Outcome(r, TreeFind(tree, r, IntersectsWith(r)))
      {
        OneKindIsSame(tree, r, cache, max);
      }
    } else {
      TwoKindsDiffer(tree, r, max);
    }
  }

  lemma TwoKindsDiffer<V>(tree: seq<Entry<V>>, r: AddrRange, max: nat)
    requires r.Typed() && max >= 1 && !OneKindOfConflict(tree, r)
    ensures !SameOutcome(tree, r, max)
  {
    TreeFindIs(tree, r);
    hide TreeFind, AddrRange.Intersects, Lookup;
    if Has(tree, r, Panic) && TreeFind(tree, r, IntersectsWith(r)) != Panic {
      var i :| 0 <= i < |tree| && r.Intersects(tree[i].range) == Panic;
      OneCached(tree, r, i, max);
    } else {
      var i :| 0 <= i < |tree| && r.Intersects(tree[i].range) == Ok(true);
      OneCached(tree, r, i, max);
    }
  }

  /** In a valid map a range that spans no single-address entry has no unfound conflict. */
  lemma AcceptedHasNoConflict<V>(tree: seq<Entry<V>>, r: AddrRange)
    requires MapInv(tree) && GoodRange(r) && NoTinyOverlap(tree, r)
    ensures OneKindOfConflict(tree, r) <==> !(Has(tree, r, Panic) && Has(tree, r, Ok(true)))
  {
    if Accepts(tree, r) {
      forall i | 0 <= i < |tree|
        ensures r.Intersects(tree[i].range) == Ok(false)
      {
        assert HasKey(tree, tree[i].range);
        EntryDoesNotIntersect(tree, r, tree[i].range);
      }
    }
  }

  // What the cache has seen.

  datatype Event = Use(x: AddrRange) | Forget(p: AddrRange) | Reset

  function EventsOf<V>(cache: seq<AddrRange>, tree: seq<Entry<V>>, op: Op<V>): seq<Event> {
    match op
    case Erase(p) => [Forget(p)]
    case Clear => [Reset]
    case _ =>
      var hit := Hit(cache, tree, op);
      if hit.Ok? && hit.value.Some? then [Use(hit.value.value)] else []
  }

  /** A used entry moves to the front and pushes the last one out if there is no room. */
  function CacheStep(cache: seq<AddrRange>, e: Event, max: nat): seq<AddrRange> {
    match e
    case Use(x) => Touch(cache, x, max)
    case Forget(p) => Without(cache, p)
    case Reset => []
  }

  function CacheOf(log: seq<Event>, max: nat): seq<AddrRange> {
    if log == [] then [] else CacheStep(CacheOf(log[..|log| - 1], max), log[|log| - 1], max)
  }

  function Log<V>(ops: seq<Op<V>>, max: nat): seq<Event> {
    if ops == [] then []
    else
      var before := ops[..|ops| - 1];
      var log := Log(before, max);
      log + EventsOf(CacheOf(log, max), After(before), ops[|ops| - 1])
  }

  // What most recently used means: by the time of the last use.

  /** The time of the last use of x that no erase of x and no clear has followed, or -1. */
  function LastUse(log: seq<Event>, x: AddrRange): (t: int)
    ensures -1 <= t < |log|
  {
    if log == [] then -1
    else
      var n := |log| - 1;
      match log[n]
      case Use(y) => if y == x then n else LastUse(log[..n], x)
      case Forget(p) => if p == x then -1 else LastUse(log[..n], x)
      case Reset => -1
  }

  /** The live entries that have been used, latest first. */
  function Recent(log: seq<Event>): seq<AddrRange> {
    if log == [] then []
    else
      var before := Recent(log[..|log| - 1]);
      match log[|log| - 1]
      case Use(x) => [x] + Without(before, x)
      case Forget(p) => Without(before, p)
      case Reset => []
  }

  ghost predicate Falling(s: seq<AddrRange>, key: AddrRange -> int) {
    forall i, j :: 0 <= i < j < |s| ==> key(s[i]) > key(s[j])
  }

  lemma {:induction false} WithoutFalls(s: seq<AddrRange>, x: AddrRange, key: AddrRange -> int)
    requires Falling(s, key)
    ensures Falling(Without(s, x), key)
  {
    if s != [] {
      WithoutFalls(s[1..], x, key);
      WithoutIs(s[1..], x);
      var rest := Without(s[1..], x);
      forall j | 0 <= j < |rest|
        ensures key(s[0]) > key(rest[j])
      {
        assert rest[j] in s[1..];
      }
    }
  }

  /** Recent holds exactly the entries with a last use, in falling order of it. */
  lemma {:induction false} RecentIsByLastUse(log: seq<Event>)
    ensures forall x :: x in Recent(log) <==> LastUse(log, x) >= 0
    ensures Falling(Recent(log), x => LastUse(log, x))
    ensures Distinct(Recent(log))
  {
    if log != [] {
      var n := |log| - 1;
      var before := log[..n];
      RecentIsByLastUse(before);
      if log[n] != Reset {
        var e := if log[n].Use? then log[n].x else log[n].p;
        WithoutIs(Recent(before), e);
        WithoutFalls(Recent(before), e, x => LastUse(before, x));
        RecentStep(log, e);
      }
    }
  }

  lemma SameOrder(s: seq<AddrRange>, key: AddrRange -> int, key': AddrRange -> int)
    requires Falling(s, key) && forall x :: x in s ==> key(x) == key'(x)
    ensures Falling(s, key')
  {
  }

  lemma FallingCons(x: AddrRange, s: seq<AddrRange>, key: AddrRange -> int)
    requires Falling(s, key) && forall y :: y in s ==> key(x) > key(y)
    ensures Falling([x] + s, key)
  {
    var all := [x] + s;
    forall i, j | 0 <= i < j < |all|
      ensures key(all[i]) > key(all[j])
    {
      assert all[j] == s[j - 1] && all[j] in s && (i > 0 ==> all[i] == s[i - 1]);
    }
  }

  lemma RecentStep(log: seq<Event>, e: AddrRange)
    requires log != [] && log[|log| - 1] in {Use(e), Forget(e)}
    requires var before := log[..|log| - 1];
             var rest := Without(Recent(before), e);
             && (forall x :: x in rest <==> LastUse(before, x) >= 0 && x != e)
             && Falling(rest, x => LastUse(before, x)) && Distinct(rest)
    ensures forall x :: x in Recent(log) <==> LastUse(log, x) >= 0
    ensures Falling(Recent(log), x => LastUse(log, x))
    ensures Distinct(Recent(log))
  {
    var before := log[..|log| - 1];
    var rest := Without(Recent(before), e);
    SameOrder(rest, x => LastUse(before, x), x => LastUse(log, x));
    if log[|log| - 1] == Use(e) {
      DistinctCons(e, rest);
      FallingCons(e, rest, x => LastUse(log, x));
    }
  }

  /** Nothing has been erased since the cache was last empty. */
  predicate NoneForgotten(log: seq<Event>) {
    log == [] || (match log[|log| - 1]
                  case Use(x) => NoneForgotten(log[..|log| - 1])
                  case Forget(p) => false
                  case Reset => true)
  }

  lemma WithoutKeepsPrefix(a: seq<AddrRange>, all: seq<AddrRange>, x: AddrRange)
    requires a <= all
    ensures Without(a, x) <= Without(all, x)
  {
    assert all == a + all[|a|..];
    WithoutAppend(a, all[|a|..], x);
  }

  /**
   The cache holds the most recently used entries, latest first.  An erase leaves a gap at the end; as
   long as there has been none, the cache holds as many of them as it has room for.
   */
  lemma {:induction false} CacheIsMostRecentlyUsed(log: seq<Event>, max: nat)
    ensures CacheOf(log, max) <= Recent(log)
    ensures NoneForgotten(log) ==> CacheOf(log, max) == Take(Recent(log), max)
  {
    if log != [] {
      var n := |log| - 1;
      var cache, recent := CacheOf(log[..n], max), Recent(log[..n]);
      CacheIsMostRecentlyUsed(log[..n], max);
      match log[n]
      case Use(x) =>
        WithoutKeepsPrefix(cache, recent, x);
        RecentIsByLastUse(log[..n]);
        TouchTaken(recent, x, max);
      case Forget(p) => WithoutKeepsPrefix(cache, recent, p);
      case Reset =>
    }
  }

  lemma CacheOfEvents(log: seq<Event>, events: seq<Event>, max: nat)
    requires |events| <= 1
    ensures CacheOf(log + events, max) == if events == [] then CacheOf(log, max) else CacheStep(CacheOf(log, max), events[0], max)
  {
    if events == [] {
      assert log + events == log;
    } else {
      assert (log + events)[..|log|] == log;
    }
  }

  /** The answers of a run with a cache of max entries. */
  function Answers<V>(ops: seq<Op<V>>, max: nat): seq<Result<Option<AddrRange>>> {
    if ops == [] then []
    else
      var before := ops[..|ops| - 1];
      Answers(before, max) + [Answer(CacheOf(Log(before, max), max), After(before), ops[|ops| - 1])]
  }

  ghost predicate AllLegal<V>(ops: seq<Op<V>>) {
    forall i {:trigger ops[i]} :: 0 <= i < |ops| ==> Legal(After(ops[..i]), ops[i])
  }

  lemma PrefixFalls(a: seq<AddrRange>, all: seq<AddrRange>, key: AddrRange -> int)
    requires a <= all && Falling(all, key)
    ensures Falling(a, key)
  {
  }

  lemma NoOps<V>(ops: seq<Op<V>>, max: nat)
    ensures After(ops[..0]) == [] && Answers(ops[..0], max) == [] && CacheOf(Log(ops[..0], max), max) == []
  {
    assert ops[..0] == [];
  }

  lemma OneMoreOp<V>(ops: seq<Op<V>>, i: nat, max: nat)
    requires i < |ops|
    ensures var tree, cache := After(ops[..i]), CacheOf(Log(ops[..i], max), max);
            var events := EventsOf(cache, tree, ops[i]);
            && After(ops[..i + 1]) == Apply(tree, ops[i])
            && Answers(ops[..i + 1], max) == Answers(ops[..i], max) + [Answer(cache, tree, ops[i])]
            && CacheOf(Log(ops[..i + 1], max), max) == if events == [] then cache else CacheStep(cache, events[0], max)
  {
    assert ops[..i + 1][..i] == ops[..i];
    hide CacheOf, Answer, Apply, CacheStep;
    var log := Log(ops[..i], max);
    CacheOfEvents(log, EventsOf(CacheOf(log, max), After(ops[..i]), ops[i]), max);
  }

  method Perform<V>(m: AddrRangeMap<V>, op: Op<V>) returns (answer: Result<Option<AddrRange>>)
    requires m.Valid() && Legal(m.tree, op)
    modifies m
    ensures m.Valid() && m.tree == Apply(old(m.tree), op) && answer == Answer(old(m.cache), old(m.tree), op)
    ensures var events := EventsOf(old(m.cache), old(m.tree), op);
            m.cache == if events == [] then old(m.cache) else CacheStep(old(m.cache), events[0], m.maxCacheSize)
  {
    assert op.Insert? ==> op.r.Typed();
    hide MapInv, CacheInv, GoodRange, TreeFind, Lookup, Scan, Placed, Erased, Touch, Without;
    answer := Ok(None);
    match op {
      case Insert(r, v) =>
        CacheDoesNotDecideInsert(m.cache, m.tree, r, m.maxCacheSize);
        answer := m.Insert(r, v);
      case Erase(p) => m.Erase(p);
      case Find(a) =>
        var found := m.ContainsAddr(a);
        answer := Ok(found);
      case FindRange(q) => answer := m.ContainsRange(q);
      case Clear => m.Clear();
    }
  }

  /**
   A run goes on until a call panics.  It leaves the tree as the map without a cache would, every lookup
   answers what a scan of the whole map finds, and insertions have the outcome that the cache makes them
   have.  The map and cache invariants hold at the end, and the cache holds the entries that were used
   last, latest first.
   */
  method Run<V>(maxCacheSize: nat, ops: seq<Op<V>>)
    returns (m: AddrRangeMap<V>, answers: seq<Result<Option<AddrRange>>>)
    requires AllLegal(ops)
    ensures |answers| <= |ops| && answers == Answers(ops[..|answers|], maxCacheSize)
    ensures forall i :: 0 <= i < |answers| - 1 ==> answers[i] != Panic
    ensures |answers| < |ops| ==> answers != [] && answers[|answers| - 1] == Panic
    ensures m.Valid() && m.maxCacheSize == maxCacheSize && m.tree == After(ops[..|answers|])
    ensures var log := Log(ops[..|answers|], maxCacheSize);
            && m.cache <= Recent(log) && (NoneForgotten(log) ==> m.cache == Take(Recent(log), maxCacheSize))
            && Falling(m.cache, x => LastUse(log, x))
  {
    hide MapInv, CacheInv, Legal, Apply, Answer, EventsOf, CacheStep;
    hide After, Answers, Log, CacheOf, Recent, NoneForgotten, LastUse, Falling, Take;
    NoOps(ops, maxCacheSize);
    m := new AddrRangeMap(maxCacheSize);
    answers := [];
    while |answers| < |ops| && (answers == [] || answers[|answers| - 1] != Panic)
      invariant m.Valid() && fresh(m) && m.maxCacheSize == maxCacheSize
      invariant |answers| <= |ops| && answers == Answers(ops[..|answers|], maxCacheSize)
      invariant forall i :: 0 <= i < |answers| - 1 ==> answers[i] != Panic
      invariant m.tree == After(ops[..|answers|])
      invariant m.cache == CacheOf(Log(ops[..|answers|], maxCacheSize), maxCacheSize)
      decreases |ops| - |answers|
    {
      OneMoreOp(ops, |answers|, maxCacheSize);
      var answer := Perform(m, ops[|answers|]);
      answers := answers + [answer];
    }
    ghost var log := Log(ops[..|answers|], maxCacheSize);
    CacheIsMostRecentlyUsed(log, maxCacheSize);
    RecentIsByLastUse(log);
    PrefixFalls(m.cache, Recent(log), x => LastUse(log, x));
  }

  // Runs with and without a cache.

  lemma OpKeepsInv<V>(tree: seq<Entry<V>>, cache: seq<AddrRange>, op: Op<V>, max: nat)
    requires MapInv(tree) && CacheInv(cache, tree, max) && Legal(tree, op)
    ensures MapInv(Apply(tree, op))
    ensures var events := EventsOf(cache, tree, op);
            CacheInv(if events == [] then cache else CacheStep(cache, events[0], max), Apply(tree, op), max)
  {
    match op
    case Insert(r, v) =>
      CacheDoesNotDecideInsert(cache, tree, r, max);
      LookupFindsKey(cache, tree, r, IntersectsWith(r));
      InsertKeepsInv(tree, cache, r, v, max);
    case Erase(p) =>
      EraseKeepsInv(tree, cache, p, max);
    case Find(a) =>
      ScanKeepsInv(tree, cache, SubsetOf(SingleAddr(a)), max);
    case FindRange(q) =>
      ScanKeepsInv(tree, cache, SubsetOf(q), max);
    case Clear =>
  }

  lemma InsertKeepsInv<V>(tree: seq<Entry<V>>, cache: seq<AddrRange>, r: AddrRange, v: V, max: nat)
    requires MapInv(tree) && CacheInv(cache, tree, max) && Legal(tree, Insert(r, v))
    ensures Accepts(tree, r) ==> MapInv(Placed(tree, r, v)) && CacheInv(cache, Placed(tree, r, v), max)
    ensures forall x :: HasKey(tree, x) ==> CacheInv(Touch(cache, x, max), tree, max)
  {
    if Accepts(tree, r) {
      InsertExact(tree, r, v);
      PlacedHasKeys(tree, r, v);
    }
    forall x | HasKey(tree, x)
      ensures CacheInv(Touch(cache, x, max), tree, max)
    {
      TouchKeepsCache(cache, tree, x, max);
    }
  }

  lemma EraseKeepsInv<V>(tree: seq<Entry<V>>, cache: seq<AddrRange>, p: AddrRange, max: nat)
    requires MapInv(tree) && CacheInv(cache, tree, max) && HasKey(tree, p)
    ensures MapInv(Erased(tree, p)) && CacheInv(Without(cache, p), Erased(tree, p), max)
  {
    var i :| 0 <= i < |tree| && tree[i].range == p;
    OtherKeysDiffer(tree, i);
    ErasedIs(tree, i, cache, max);
    ErasedAt(tree, i);
  }

  lemma ScanKeepsInv<V>(tree: seq<Entry<V>>, cache: seq<AddrRange>, cond: Cond, max: nat)
    requires CacheInv(cache, tree, max)
    ensures var found := Scan(tree, cond, 0); found.Some? ==> CacheInv(Touch(cache, found.value, max), tree, max)
  {
    ScanIsFirst(tree, cond, 0);
    var found := Scan(tree, cond, 0);
    if found.Some? {
      assert HasKey(tree, found.value);
      TouchKeepsCache(cache, tree, found.value, max);
    }
  }

  lemma {:induction false} RunKeepsInv<V>(ops: seq<Op<V>>, max: nat)
    requires AllLegal(ops)
    ensures MapInv(After(ops)) && CacheInv(CacheOf(Log(ops, max), max), After(ops), max)
  {
    if ops != [] {
      var n := |ops| - 1;
      LegalPrefix(ops);
      RunKeepsInv(ops[..n], max);
      OneMoreOp(ops, n, max);
      assert ops[..n + 1] == ops;
      hide MapInv, CacheInv, Legal, Apply, EventsOf;
      OpKeepsInv(After(ops[..n]), CacheOf(Log(ops[..n], max), max), ops[n], max);
    }
  }

  lemma LegalPrefix<V>(ops: seq<Op<V>>)
    requires ops != [] && AllLegal(ops)
    ensures AllLegal(ops[..|ops| - 1]) && Legal(After(ops[..|ops| - 1]), ops[|ops| - 1])
  {
    var before := ops[..|ops| - 1];
    forall i | 0 <= i < |before|
      ensures Legal(After(before[..i]), before[i])
    {
      assert before[..i] == ops[..i] && before[i] == ops[i];
    }
  }

  /** Every insertion meets conflicts of one kind only. */
  ghost predicate OneKindThroughout<V>(ops: seq<Op<V>>) {
    forall i {:trigger ops[i]} :: 0 <= i < |ops| && ops[i].Insert? && ops[i].r.Typed() ==>
      OneKindOfConflict(After(ops[..i]), ops[i].r)
  }

  /** Then a run with a cache of any size gives every answer that the run without a cache gives. */
  lemma {:induction false} RunWithoutCache<V>(ops: seq<Op<V>>, max: nat)
    requires AllLegal(ops) && OneKindThroughout(ops)
    ensures Answers(ops, max) == Answers(ops, 0)
  {
    if ops != [] {
      var n := |ops| - 1;
      var before := ops[..n];
      LegalPrefix(ops);
      assert OneKindThroughout(before) by {
        assert forall i :: 0 <= i < n ==> before[..i] == ops[..i] && before[i] == ops[i];
      }
      RunWithoutCache(before, max);
      RunKeepsInv(before, max);
      RunKeepsInv(before, 0);
      if ops[n].Insert? {
        assert OneKindOfConflict(After(before), ops[n].r);
        OneKindIsSame(After(before), ops[n].r, CacheOf(Log(before, max), max), max);
        OneKindIsSame(After(before), ops[n].r, CacheOf(Log(before, 0), 0), 0);
      }
    }
  }

  // Instances: the cache decides between a refusal and a panic, and between accepting and refusing.

  /** [8, 18) over the even addresses of [0, 16) and [16, 20): refused, or a panic if the striped entry is cached. */
  lemma CachedStripePanics<V>(v: V, max: nat)
    requires max >= 1
    ensures var tree := [Entry(Evens(), v), Entry(AddrRange(16, 20, [], 0), v)];
            var r := AddrRange(8, 18, [], 0);
            && MapInv(tree) && GoodRange(r) && NoTinyOverlap(tree, r) && CacheInv([Evens()], tree, max)
            && Lookup([], tree, r, IntersectsWith(r)) == Ok(Some(AddrRange(16, 20, [], 0)))
            && Lookup([Evens()], tree, r, IntersectsWith(r)) == Panic
  {
    var tree := [Entry(Evens(), v), Entry(AddrRange(16, 20, [], 0), v)];
    var r := AddrRange(8, 18, [], 0);
    EvensAreGood();
    SizePlain(AddrRange(16, 20, [], 0));
    SizePlain(r);
    assert r.Intersects(tree[0].range) == Panic && r.Intersects(tree[1].range) == Ok(true);
    assert UpperBound(tree, r, 1) == 1 && UpperBound(tree, r, 0) == 1;
    OneCached(tree, r, 0, max);
  }

  /** A run that comes to this: the last insertion is refused without a cache, and ends the program with one of any size. */
  function FatalRun<V>(v: V): seq<Op<V>> {
    [Insert(Evens(), v), Insert(AddrRange(16, 20, [], 0), v), Find(0), Insert(AddrRange(8, 18, [], 0), v)]
  }

  lemma FatalInserts<V>(v: V, max: nat)
    ensures var ops := FatalRun(v);
            && After(ops[..2]) == [Entry(Evens(), v), Entry(AddrRange(16, 20, [], 0), v)]
            && CacheOf(Log(ops[..2], max), max) == []
            && Legal(After(ops[..0]), ops[0]) && Legal(After(ops[..1]), ops[1])
  {
    var ops, one, two := FatalRun(v), Entry(Evens(), v), Entry(AddrRange(16, 20, [], 0), v);
    EvensAreGood();
    SizePlain(two.range);
    OneMoreOp(ops, 0, max);
    assert ops[..0] == [];
    assert UpperBound<V>([], Evens(), 0) == 0;
    assert After(ops[..1]) == [one];
    OneMoreOp(ops, 1, max);
    assert two.range.Intersects(one.range) == Ok(false);
    assert UpperBound([one], two.range, 1) == 1 && UpperBound([one], two.range, 0) == 1;
    assert WalkBack([one], 0, IntersectsWith(two.range)) == Ok(None);
  }

  lemma FatalLookup<V>(v: V, max: nat)
    ensures var ops := FatalRun(v);
            After(ops[..3]) == After(ops[..2]) && CacheOf(Log(ops[..3], max), max) == Take([Evens()], max)
  {
    FatalInserts(v, max);
    ZeroIsFound([Entry(Evens(), v), Entry(AddrRange(16, 20, [], 0), v)]);
    hide EventsOf, After, Log, CacheOf, Answer, Answers;
    OneMoreOp(FatalRun(v), 2, max);
  }

  lemma ZeroIsFound<V>(tree: seq<Entry<V>>)
    requires |tree| > 0 && tree[0].range == Evens()
    ensures EventsOf([], tree, Find(0)) == [Use(Evens())]
  {
    EvensAreGood();
    EvensContain(0);
    SubsetOfSingle(Evens(), 0);
  }

  lemma CacheEndsTheRun<V>(v: V, max: nat)
    ensures AllLegal(FatalRun(v))
    ensures |Answers(FatalRun(v), max)| == 4 && Answers(FatalRun(v), max)[3] == if max == 0 then Ok(None) else Panic
  {
    var ops := FatalRun(v);
    hide Legal, After, Answers;
    FatalInserts(v, max);
    FatalInsert(v, max);
    assert Legal(After(ops[..2]), ops[2]) by {
      LegalFind(After(ops[..2]), 0);
    }
    forall i | 0 <= i < |ops|
      ensures Legal(After(ops[..i]), ops[i])
    {
      assert i == 0 || i == 1 || i == 2 || i == 3;
    }
  }

  lemma LegalFind<V>(tree: seq<Entry<V>>, a: nat)
    requires a < TWO64
    ensures Legal(tree, Find(a))
  {
  }

  lemma FatalInsert<V>(v: V, max: nat)
    ensures var ops := FatalRun(v);
            && Legal(After(ops[..3]), ops[3]) && |Answers(ops, max)| == 4
            && Answers(ops, max)[3] == if max == 0 then Ok(None) else Panic
  {
    hide After, Answers, Log, CacheOf, Answer, EventsOf, Apply, Legal;
    var ops := FatalRun(v);
    FatalInserts(v, max);
    FatalLookup(v, max);
    LastAnswer(v, max);
    AnswersLength(ops[..3], max);
    OneMoreOp(ops, 3, max);
    assert ops[..4] == ops;
  }

  lemma LastAnswer<V>(v: V, max: nat)
    ensures var tree, op := [Entry(Evens(), v), Entry(AddrRange(16, 20, [], 0), v)], Insert(AddrRange(8, 18, [], 0), v);
            && Legal(tree, op)
            && Answer(Take([Evens()], max), tree, op) == if max == 0 then Ok(None) else Panic
  {
    CachedStripePanics(v, 1);
    hide Lookup, MapInv, CacheInv, NoTinyOverlap;
  }

  lemma {:induction false} AnswersLength<V>(ops: seq<Op<V>>, max: nat)
    ensures |Answers(ops, max)| == |ops|
  {
    if ops != [] {
      AnswersLength(ops[..|ops| - 1], max);
    }
  }

  /** The even addresses of [0, 16) over [5, 6) and [8, 9): accepted, or refused if [8, 9) is cached. */
  lemma CachedSingleRefuses<V>(v: V, max: nat)
    requires max >= 1
    ensures var tree := [Entry(AddrRange(5, 6, [], 0), v), Entry(AddrRange(8, 9, [], 0), v)];
            && MapInv(tree) && GoodRange(Evens()) && CacheInv([AddrRange(8, 9, [], 0)], tree, max)
            && Lookup([], tree, Evens(), IntersectsWith(Evens())) == Ok(None)
            && Lookup([AddrRange(8, 9, [], 0)], tree, Evens(), IntersectsWith(Evens())) == Ok(Some(AddrRange(8, 9, [], 0)))
  {
    var tree := [Entry(AddrRange(5, 6, [], 0), v), Entry(AddrRange(8, 9, [], 0), v)];
    EvensAreGood();
    EvensContain(5);
    EvensContain(8);
    SizePlain(tree[0].range);
    SizePlain(tree[1].range);
    assert Evens().Intersects(tree[0].range) == Ok(false) && Evens().Intersects(tree[1].range) == Ok(true);
    assert UpperBound(tree, Evens(), 0) == 0;
    OneCached(tree, Evens(), 1, max);
  }
}
