/**
 The path-compressed binary trie of base/trie.hh.  Keys are words written from the most
 significant bit, so "the top w bits of key" is `key[..w]` and a node that was inserted with
 width w stands for the bit string `prefix`.
 */
module Tries {
  import opened Options
  import opened Words

  /** The mask that keeps the w most significant of n bits. */
  function PrefixMask(w: nat, n: nat): Word {
    seq(n, i => i < w)
  }

  function KeyShiftLeft(k: Word, s: nat): Word
    requires s <= |k|
  {
    k[s..] + Zeros(s)
  }

  function KeyShiftRightOne(k: Word): Word
    requires |k| > 0
  {
    [false] + k[..|k| - 1]
  }

  function ExtendMask(orig: Word): Word
    requires |orig| > 0
  {
    var msb := [true] + Zeros(|orig| - 1);
    Or(Or(orig, KeyShiftRightOne(orig)), msb)
  }

  lemma ExtendMaskIsNextPrefixMask(w: nat, n: nat)
    requires 0 < n && w <= n
    ensures ExtendMask(PrefixMask(w, n)) == PrefixMask(w + 1, n)
  {
    var m := PrefixMask(w, n);
    forall i | 0 <= i < n
      ensures ExtendMask(m)[i] == (i < w + 1)
    {
      if i > 0 {
        assert KeyShiftRightOne(m)[i] == m[i - 1];
      }
    }
  }

  lemma SameTop(a: Word, b: Word, w: nat)
    requires |a| == |b| && w <= |a|
    ensures a[..w] + Zeros(|a| - w) == b[..w] + Zeros(|a| - w) <==> a[..w] == b[..w]
  {
    assert (a[..w] + Zeros(|a| - w))[..w] == a[..w];
    assert (b[..w] + Zeros(|a| - w))[..w] == b[..w];
  }

  lemma PrefixMaskOrder(a: nat, b: nat, n: nat)
    requires a <= n && b <= n
    ensures And(PrefixMask(a, n), PrefixMask(b, n)) == PrefixMask(a, n) <==> a <= b
    ensures PrefixMask(a, n) == PrefixMask(b, n) <==> a == b
  {
    var m := And(PrefixMask(a, n), PrefixMask(b, n));
    if b < a {
      assert !m[b] && PrefixMask(a, n)[b] && !PrefixMask(b, n)[b];
    } else {
      assert m == PrefixMask(a, n);
      if a < b {
        assert !PrefixMask(a, n)[a] && PrefixMask(b, n)[a];
      }
    }
  }

  lemma AndPrefixMask(k: Word, w: nat)
    requires w <= |k|
    ensures And(k, PrefixMask(w, |k|)) == k[..w] + Zeros(|k| - w)
  {
  }

  /** The bits that an entry of the given width is about. */
  function Top(key: Word, width: nat): seq<bool> {
    if width < |key| then key[..width] else key
  }

  /** An entry of a given width matches exactly the keys that agree with its own in that many of the highest bits. */
  lemma TopMatches(own: Word, width: nat, key: Word)
    requires |own| == |key|
    ensures Top(own, width) <= key <==> forall i :: 0 <= i < width && i < |own| ==> own[i] == key[i]
  {
    var p := Top(own, width);
    if p <= key {
      forall i | 0 <= i < width && i < |own|
        ensures own[i] == key[i]
      {
        assert p[i] == key[i];
      }
    }
  }

  class Node<V> {
    const key: Word
    const mask: Word
    var value: Option<V>
    var parent: Node?<V>
    var kid0: Node?<V>
    var kid1: Node?<V>
    ghost const prefix: seq<bool>

    constructor (k: Word, m: Word, v: Option<V>, ghost w: nat)
      requires w <= |k| && m == PrefixMask(w, |k|)
      ensures prefix == k[..w] && Tidy(|k|)
      ensures value == v && parent == null && kid0 == null && kid1 == null
    {
      key := And(k, m);
      mask := m;
      value := v;
      parent, kid0, kid1 := null, null, null;
      prefix := k[..w];
      AndPrefixMask(k, w);
    }

    predicate Matches(test: Word)
      requires |test| == |mask|
    {
      And(test, mask) == key
    }

    ghost predicate Tidy(bits: nat) {
      && |prefix| <= bits
      && mask == PrefixMask(|prefix|, bits)
      && key == prefix + Zeros(bits - |prefix|)
    }

    lemma MatchesIsPrefix(test: Word)
      requires Tidy(|test|)
      ensures Matches(test) <==> prefix <= test
    {
      AndPrefixMask(test, |prefix|);
      var w := |prefix|;
      assert (test[..w] + Zeros(|test| - w))[..w] == test[..w];
      assert key[..w] == prefix;
    }
  }

  /** The shortest live prefix of key of length at least i. */
  function FirstLive<V>(live: map<seq<bool>, V>, key: Word, i: nat): (r: Option<seq<bool>>)
    requires i <= |key| + 1
    ensures r.Some? ==> r.value in live && r.value <= key
    decreases |key| + 1 - i
  {
    if i > |key| then None
    else if key[..i] in live then Some(key[..i])
    else FirstLive(live, key, i + 1)
  }

  lemma {:induction false} FirstLiveIsShortest<V>(live: map<seq<bool>, V>, key: Word, i: nat)
    requires i <= |key| + 1
    ensures match FirstLive(live, key, i)
            case None => forall p :: p in live && p <= key ==> |p| < i
            case Some(q) => i <= |q| && forall p :: p in live && p <= key && |p| >= i ==> q <= p
    decreases |key| + 1 - i
  {
    if i <= |key| && key[..i] !in live {
      FirstLiveIsShortest(live, key, i + 1);
      forall p | p in live && p <= key
        ensures |p| != i
      {
        assert p == key[..|p|];
      }
    }
  }

  lemma FirstLiveSkips<V>(live: map<seq<bool>, V>, key: Word, i: nat, j: nat)
    requires i <= j <= |key| + 1
    requires forall k :: i <= k < j ==> key[..k] !in live
    ensures FirstLive(live, key, i) == FirstLive(live, key, j)
    decreases j - i
  {
    if i < j {
      FirstLiveSkips(live, key, i + 1, j);
    }
  }

  /** The mutable fields of a node at one moment. */
  datatype Cell<V> = Cell(parent: Node?<V>, kid0: Node?<V>, kid1: Node?<V>, value: Option<V>) {
    function Kid(i: nat): Node?<V>
      requires i < 2
    {
      if i == 0 then kid0 else kid1
    }

    function WithKid(i: nat, k: Node?<V>): Cell<V>
      requires i < 2
    {
      if i == 0 then this.(kid0 := k) else this.(kid1 := k)
    }

    predicate HasKid(k: Node<V>) {
      kid0 == k || kid1 == k
    }
  }

  /** All nodes of a trie at one moment. */
  type Graph<V> = map<Node<V>, Cell<V>>

  ghost predicate LinkOk<V>(g: Graph<V>, n: Node<V>, k: Node<V>) {
    k in g && g[k].parent == n && |n.prefix| < |k.prefix| && n.prefix <= k.prefix
  }

  ghost predicate CellOk<V>(g: Graph<V>, head: Node<V>, bits: nat, n: Node<V>)
    requires n in g
  {
    && n.Tidy(bits)
    && (n != head ==> g[n].parent != null && g[n].parent in g && g[g[n].parent].HasKid(n))
    && (g[n].kid0 != null ==> LinkOk(g, n, g[n].kid0))
    && (g[n].kid1 != null ==> LinkOk(g, n, g[n].kid1))
    && (g[n].kid1 != null ==> g[n].kid0 != null && g[n].kid0.prefix[|n.prefix|] != g[n].kid1.prefix[|n.prefix|])
  }

  /** A node other than the root is kept for its value or because two legs part there. */
  ghost predicate Needed<V>(c: Cell<V>) {
    c.value.Some? || c.kid1 != null
  }

  /** The trie invariant; the node lax, like the root, need not be Needed. */
  ghost predicate WellFormed<V>(g: Graph<V>, head: Node<V>, bits: nat, lax: Node<V>) {
    && bits > 0 && head in g && head.prefix == [] && g[head].parent == null && g[head].value == None
    && (forall n {:trigger CellOk(g, head, bits, n)} :: n in g ==> CellOk(g, head, bits, n))
    && (forall n {:trigger Needed(g[n])} :: n in g && n != head && n != lax ==> Needed(g[n]))
  }

  ghost predicate Indexed<V>(g: Graph<V>, handles: map<seq<bool>, Node<V>>, live: map<seq<bool>, V>) {
    && handles.Keys == live.Keys
    && (forall p :: p in handles ==> handles[p] in g && handles[p].prefix == p && g[handles[p]].value == Some(live[p]))
    && (forall n :: n in g && g[n].value.Some? ==> n.prefix in handles && handles[n.prefix] == n)
  }

  lemma ParentOk<V>(g: Graph<V>, head: Node<V>, bits: nat, lax: Node<V>, n: Node<V>)
    requires WellFormed(g, head, bits, lax) && n in g && n != head
    ensures var p := g[n].parent; p != null && p in g && g[p].HasKid(n) && LinkOk(g, p, n)
  {
    assert CellOk(g, head, bits, n) && CellOk(g, head, bits, g[n].parent);
  }

  lemma KidLink<V>(g: Graph<V>, head: Node<V>, bits: nat, n: Node<V>, i: nat)
    requires WellFormed(g, head, bits, head) && n in g && i < 2 && g[n].Kid(i) != null
    ensures LinkOk(g, n, g[n].Kid(i))
  {
    assert CellOk(g, head, bits, n);
  }

  /** At most one kid of a node matches a given bit string. */
  lemma OneKidMatches<V>(g: Graph<V>, head: Node<V>, bits: nat, lax: Node<V>, p: Node<V>, x: Node<V>, y: Node<V>, key: seq<bool>)
    requires WellFormed(g, head, bits, lax) && p in g && g[p].HasKid(x) && g[p].HasKid(y)
    requires x.prefix <= key && y.prefix <= key
    ensures x == y
  {
    assert CellOk(g, head, bits, p);
  }

  /** A node that is longer than p and on the way to p's kid n is n itself. */
  lemma {:induction false} NothingBetween<V>(g: Graph<V>, head: Node<V>, bits: nat, lax: Node<V>,
                                                  p: Node<V>, n: Node<V>, q: Node<V>)
    requires WellFormed(g, head, bits, lax) && p in g && g[p].HasKid(n) && q in g
    requires q.prefix <= n.prefix && p.prefix <= n.prefix && |p.prefix| < |q.prefix|
    ensures q == n
    decreases |q.prefix|, 0
  {
    ParentOk(g, head, bits, lax, q);
    var pq := g[q].parent;
    if |pq.prefix| > |p.prefix| {
      NothingBetween(g, head, bits, lax, p, n, pq);
    } else if |pq.prefix| < |p.prefix| {
      NothingBetween(g, head, bits, lax, pq, q, p);
    } else {
      Unique(g, head, bits, lax, pq, p);
      OneKidMatches(g, head, bits, lax, p, n, q, n.prefix);
    }
  }

  /** Two distinct nodes never stand for the same prefix. */
  lemma {:induction false} Unique<V>(g: Graph<V>, head: Node<V>, bits: nat, lax: Node<V>, m: Node<V>, c: Node<V>)
    requires WellFormed(g, head, bits, lax) && m in g && c in g && m.prefix == c.prefix
    ensures m == c
    decreases |m.prefix|, 1
  {
    if m != head {
      ParentOk(g, head, bits, lax, m);
      NothingBetween(g, head, bits, lax, g[m].parent, m, c);
    } else if c != head {
      ParentOk(g, head, bits, lax, c);
    }
  }

  /** Below c, the way to a longer prefix n leads through a kid of c. */
  lemma {:induction false} Towards<V>(g: Graph<V>, head: Node<V>, bits: nat, lax: Node<V>, n: Node<V>, c: Node<V>)
    returns (k: Node<V>)
    requires WellFormed(g, head, bits, lax) && n in g && c in g
    requires c.prefix <= n.prefix && |c.prefix| < |n.prefix|
    ensures g[c].HasKid(k) && k.prefix <= n.prefix
    decreases |n.prefix|
  {
    ParentOk(g, head, bits, lax, n);
    var p := g[n].parent;
    k := n;
    if |p.prefix| > |c.prefix| {
      k := Towards(g, head, bits, lax, p, c);
    } else if |p.prefix| < |c.prefix| {
      NothingBetween(g, head, bits, lax, p, n, c);
    } else {
      Unique(g, head, bits, lax, p, c);
    }
  }

  /** The node lookupHandle and insert move to: the kid whose prefix key extends. */
  ghost predicate StepsTo<V>(c: Cell<V>, next: Node?<V>, key: seq<bool>) {
    next == if c.kid0 != null && c.kid0.prefix <= key then c.kid0
            else if c.kid1 != null && c.kid1.prefix <= key then c.kid1 else null
  }

  /** A step skips no node that matches key. */
  lemma StepSkipsNothing<V>(g: Graph<V>, head: Node<V>, bits: nat, node: Node<V>, next: Node?<V>, key: seq<bool>, q: Node<V>)
    requires WellFormed(g, head, bits, head) && node in g && StepsTo(g[node], next, key)
    requires q in g && node.prefix <= q.prefix <= key && q != node
    ensures next != null && |next.prefix| <= |q.prefix|
  {
    if |q.prefix| == |node.prefix| {
      Unique(g, head, bits, head, q, node);
    } else {
      var k := Towards(g, head, bits, head, q, node);
      OneKidMatches(g, head, bits, head, node, k, next, key);
    }
  }

  lemma NoLiveBetween<V>(g: Graph<V>, head: Node<V>, bits: nat, handles: map<seq<bool>, Node<V>>, live: map<seq<bool>, V>,
                         node: Node<V>, next: Node?<V>, key: Word, j: nat)
    requires WellFormed(g, head, bits, head) && Indexed(g, handles, live) && |key| == bits
    requires node in g && node.prefix <= key && g[node].value == None && StepsTo(g[node], next, key)
    requires j == if next == null then bits + 1 else |next.prefix|
    ensures forall k :: |node.prefix| <= k < j && k <= bits ==> key[..k] !in live
  {
    forall k | |node.prefix| <= k < j && k <= bits && key[..k] in live
      ensures false
    {
      StepSkipsNothing(g, head, bits, node, next, key, handles[key[..k]]);
    }
  }

  ghost function WithLeaf<V>(g: Graph<V>, n: Node<V>, i: nat, leaf: Node<V>, v: V): Graph<V>
    requires n in g && i < 2
  {
    g[n := g[n].WithKid(i, leaf)][leaf := Cell(n, null, null, Some(v))]
  }

  ghost function WithMid<V>(g: Graph<V>, n: Node<V>, i: nat, mid: Node<V>, k: Node<V>): Graph<V>
    requires n in g && k in g && i < 2
  {
    g[n := g[n].WithKid(i, mid)][k := g[k].(parent := mid)][mid := Cell(n, k, null, None)]
  }

  lemma SameWithMid<V>(g: Graph<V>, n: Node<V>, i: nat, mid: Node<V>, k: Node<V>)
    requires n in g && k in g && i < 2 && mid !in g && n != k
    ensures var h := g[mid := Cell(n, k, null, None)];
            var h' := h[k := h[k].(parent := mid)];
            h'[n := h'[n].WithKid(i, mid)] == WithMid(g, n, i, mid, k)
  {
  }

  // How each relinking of insert and remove keeps the invariant.

  lemma SetValueKeeps<V>(g: Graph<V>, head: Node<V>, bits: nat, lax: Node<V>, n: Node<V>, v: Option<V>)
    requires WellFormed(g, head, bits, lax) && n in g && n != head
    requires lax == n || lax == head
    requires v.Some? || g[n].kid1 != null
    ensures WellFormed(g[n := g[n].(value := v)], head, bits, head)
  {
    var h := g[n := g[n].(value := v)];
    forall m | m in h
      ensures CellOk(h, head, bits, m)
    {
      assert CellOk(g, head, bits, m);
    }
    forall m | m in h && m != head
      ensures Needed(h[m])
    {
      assert m == n || Needed(g[m]);
    }
  }

  lemma AddLeafKeepsCell<V>(g: Graph<V>, head: Node<V>, bits: nat, n: Node<V>, i: nat, leaf: Node<V>, v: V, m: Node<V>)
    requires n in g && i < 2 && g[n].Kid(i) == null
    requires leaf !in g && leaf.Tidy(bits) && n.prefix <= leaf.prefix && |n.prefix| < |leaf.prefix|
    requires i == 1 ==> g[n].kid0 != null && |n.prefix| < |g[n].kid0.prefix| &&
                        g[n].kid0.prefix[|n.prefix|] != leaf.prefix[|n.prefix|]
    requires m in g && CellOk(g, head, bits, m)
    ensures CellOk(WithLeaf(g, n, i, leaf, v), head, bits, m)
  {
  }

  lemma AddLeafKeeps<V>(g: Graph<V>, head: Node<V>, bits: nat, lax: Node<V>, n: Node<V>, i: nat, leaf: Node<V>, v: V)
    requires WellFormed(g, head, bits, lax) && n in g && i < 2 && g[n].Kid(i) == null
    requires lax == head || (lax == n && i == 1)
    requires leaf !in g && leaf.Tidy(bits) && n.prefix <= leaf.prefix && |n.prefix| < |leaf.prefix|
    requires i == 1 ==> g[n].kid0 != null && |n.prefix| < |g[n].kid0.prefix| &&
                        g[n].kid0.prefix[|n.prefix|] != leaf.prefix[|n.prefix|]
    ensures WellFormed(WithLeaf(g, n, i, leaf, v), head, bits, head)
  {
    var h := WithLeaf(g, n, i, leaf, v);
    forall m | m in h
      ensures CellOk(h, head, bits, m)
    {
      if m != leaf {
        AddLeafKeepsCell(g, head, bits, n, i, leaf, v, m);
      }
    }
    forall m | m in h && m != head
      ensures Needed(h[m])
    {
      assert m == leaf || m == lax || Needed(g[m]);
    }
  }

  lemma SplitKeepsCell<V>(g: Graph<V>, head: Node<V>, bits: nat, n: Node<V>, i: nat, mid: Node<V>, k: Node<V>, m: Node<V>)
    requires n in g && i < 2 && g[n].Kid(i) == k && LinkOk(g, n, k) && k != head
    requires mid !in g && mid.Tidy(bits) && n.prefix <= mid.prefix <= k.prefix
    requires |n.prefix| < |mid.prefix| < |k.prefix|
    requires m in g && CellOk(g, head, bits, m)
    ensures CellOk(WithMid(g, n, i, mid, k), head, bits, m)
  {
  }

  /** Putting a node mid on the edge from n to its kid k. */
  lemma SplitKeeps<V>(g: Graph<V>, head: Node<V>, bits: nat, n: Node<V>, i: nat, mid: Node<V>, k: Node<V>)
    requires WellFormed(g, head, bits, head) && n in g && i < 2 && g[n].Kid(i) == k && LinkOk(g, n, k)
    requires mid !in g && mid.Tidy(bits) && n.prefix <= mid.prefix <= k.prefix
    requires |n.prefix| < |mid.prefix| < |k.prefix|
    ensures WellFormed(WithMid(g, n, i, mid, k), head, bits, mid)
  {
    var h := WithMid(g, n, i, mid, k);
    forall m | m in h
      ensures CellOk(h, head, bits, m)
    {
      if m != mid {
        SplitKeepsCell(g, head, bits, n, i, mid, k, m);
      }
    }
    forall m | m in h && m != head && m != mid
      ensures Needed(h[m])
    {
      assert Needed(g[m]);
    }
  }

  lemma SplitStep<V>(g: Graph<V>, head: Node<V>, bits: nat, handles: map<seq<bool>, Node<V>>, live: map<seq<bool>, V>,
                     n: Node<V>, i: nat, mid: Node<V>)
    requires WellFormed(g, head, bits, head) && Indexed(g, handles, live) && n in g && i < 2 && g[n].Kid(i) != null
    requires mid !in g && mid.Tidy(bits) && n.prefix <= mid.prefix <= g[n].Kid(i).prefix
    requires |n.prefix| < |mid.prefix| < |g[n].Kid(i).prefix|
    ensures g[n].Kid(i) in g && g[n].Kid(i) != n
    ensures WellFormed(WithMid(g, n, i, mid, g[n].Kid(i)), head, bits, mid)
    ensures Indexed(WithMid(g, n, i, mid, g[n].Kid(i)), handles, live)
  {
    KidLink(g, head, bits, n, i);
    SplitKeeps(g, head, bits, n, i, mid, g[n].Kid(i));
  }

  /** The cell of a parent once its kid n is replaced by k: a single kid is always kid0. */
  ghost function Rejoined<V>(c: Cell<V>, n: Node<V>, k: Node?<V>): Cell<V> {
    var d := c.WithKid(if c.kid0 == n then 0 else 1, k);
    if d.kid1 != null && d.kid0 == null then d.(kid0 := d.kid1, kid1 := null) else d
  }

  /** The graph without n, whose only kid, if any, moves up to n's parent. */
  ghost function Spliced<V>(g: Graph<V>, n: Node<V>): Graph<V>
    requires n in g && g[n].parent != null && g[n].parent in g
    requires g[n].kid0 != null ==> g[n].kid0 in g
  {
    var p, k := g[n].parent, g[n].kid0;
    var h := g[p := Rejoined(g[p], n, k)];
    (if k == null then h else h[k := h[k].(parent := p)]) - {n}
  }

  lemma SpliceKeepsCell<V>(g: Graph<V>, head: Node<V>, bits: nat, p: Node<V>, n: Node<V>, m: Node<V>)
    requires n in g && n != head && g[n].kid1 == null && g[n].parent == p && p in g
    requires g[p].HasKid(n) && LinkOk(g, p, n) && CellOk(g, head, bits, n) && CellOk(g, head, bits, p)
    requires m in g && m != n && CellOk(g, head, bits, m) && n != p && g[n].kid0 != p && g[n].kid0 != head
    ensures CellOk(Spliced(g, n), head, bits, m)
  {
    var k := g[n].kid0;
    var h := Spliced(g, n);
    if m == p {
    } else if m == k {
    } else {
      assert h[m] == g[m];
    }
  }

  lemma SpliceKeepsNeeded<V>(g: Graph<V>, head: Node<V>, bits: nat, n: Node<V>, m: Node<V>)
    requires WellFormed(g, head, bits, n) && n in g && g[n].parent != null && g[n].parent in g
    requires g[n].kid0 != null ==> g[n].kid0 in g
    requires m in g && m != n && m != head && m != g[n].parent
    ensures Needed(Spliced(g, n)[m])
  {
    assert Needed(g[m]);
  }

  lemma SpliceKeeps<V>(g: Graph<V>, head: Node<V>, bits: nat, n: Node<V>)
    requires WellFormed(g, head, bits, n) && n in g && n != head && g[n].kid1 == null
    ensures g[n].parent != null && g[n].parent in g && LinkOk(g, g[n].parent, n) && g[g[n].parent].HasKid(n)
    ensures g[n].kid0 != null ==> LinkOk(g, n, g[n].kid0)
    ensures WellFormed(Spliced(g, n), head, bits, g[n].parent)
  {
    ParentOk(g, head, bits, n, n);
    var p, k := g[n].parent, g[n].kid0;
    assert CellOk(g, head, bits, n) && CellOk(g, head, bits, p);
    var h := Spliced(g, n);
    forall m | m in h
      ensures CellOk(h, head, bits, m)
    {
      assert CellOk(g, head, bits, m);
      SpliceKeepsCell(g, head, bits, p, n, m);
    }
    forall m | m in h && m != head && m != p
      ensures Needed(h[m])
    {
      SpliceKeepsNeeded(g, head, bits, n, m);
    }
  }

  lemma IndexedAdd<V>(g: Graph<V>, h: Graph<V>, handles: map<seq<bool>, Node<V>>, live: map<seq<bool>, V>, n: Node<V>, v: V)
    requires Indexed(g, handles, live) && n.prefix !in handles && h.Keys == g.Keys + {n} && h[n].value == Some(v)
    requires forall m :: m in g && m != n ==> h[m].value == g[m].value
    ensures Indexed(h, handles[n.prefix := n], live[n.prefix := v])
  {
  }

  lemma SpliceStep<V>(g: Graph<V>, head: Node<V>, bits: nat, handles: map<seq<bool>, Node<V>>, live: map<seq<bool>, V>,
                      n: Node<V>)
    requires WellFormed(g, head, bits, n) && Indexed(g, handles, live) && n in g && n != head && g[n].kid1 == null
    ensures var p := g[n].parent; p != null && p in g && p != n && g[p].HasKid(n) && |p.prefix| < |n.prefix|
    ensures g[n].kid0 != null ==> g[n].kid0 in g && g[n].kid0 != g[n].parent
    ensures WellFormed(Spliced(g, n), head, bits, g[n].parent)
    ensures Spliced(g, n).Keys == g.Keys - {n} && Spliced(g, n)[g[n].parent] == Rejoined(g[g[n].parent], n, g[n].kid0)
    ensures if g[n].value.Some? then Indexed(Spliced(g, n), handles - {n.prefix}, live - {n.prefix})
            else Indexed(Spliced(g, n), handles, live)
  {
    SpliceKeeps(g, head, bits, n);
    var h := Spliced(g, n);
    assert h.Keys == g.Keys - {n};
    assert forall m :: m in h ==> h[m].value == g[m].value;
  }

  lemma AddLeafStep<V>(g: Graph<V>, head: Node<V>, bits: nat, handles: map<seq<bool>, Node<V>>, live: map<seq<bool>, V>,
                       n: Node<V>, i: nat, leaf: Node<V>, v: V)
    requires WellFormed(g, head, bits, n) && Indexed(g, handles, live) && n in g && i < 2 && g[n].Kid(i) == null
    requires i == 0 ==> n == head || Needed(g[n])
    requires leaf !in g && leaf.Tidy(bits) && n.prefix <= leaf.prefix && |n.prefix| < |leaf.prefix|
    requires i == 1 ==> g[n].kid0 != null && |n.prefix| < |g[n].kid0.prefix| &&
                        g[n].kid0.prefix[|n.prefix|] != leaf.prefix[|n.prefix|]
    requires leaf.prefix !in handles
    ensures WellFormed(WithLeaf(g, n, i, leaf, v), head, bits, head)
    ensures Indexed(WithLeaf(g, n, i, leaf, v), handles[leaf.prefix := leaf], live[leaf.prefix := v])
  {
    AddLeafKeeps(g, head, bits, if i == 0 then head else n, n, i, leaf, v);
    IndexedAdd(g, WithLeaf(g, n, i, leaf, v), handles, live, leaf, v);
  }

  /** After n is spliced out, its parent is fine, or has one kid and no value and has to go as well. */
  lemma AfterSplice<V>(g: Graph<V>, h: Graph<V>, head: Node<V>, bits: nat, n: Node<V>, p: Node<V>)
    requires WellFormed(g, head, bits, n) && n in g && n != head && g[n].kid1 == null && g[n].parent == p && p in g && p != n
    requires WellFormed(h, head, bits, p) && p in h && h[p] == Rejoined(g[p], n, g[n].kid0)
    ensures p == head <==> h[p].parent == null
    ensures if h[p].kid1 == null && h[p].value == None && h[p].parent != null then h[p].kid0 != null
            else WellFormed(h, head, bits, head)
  {
    assert p != head ==> Needed(g[p]);
    assert CellOk(g, head, bits, p) && CellOk(h, head, bits, p);
  }

  class Trie<V> {
    const bits: nat
    const head: Node<V>
    ghost var g: Graph<V>
    ghost var handles: map<seq<bool>, Node<V>>
    ghost var live: map<seq<bool>, V>  // what the trie means: its entries by prefix

    ghost predicate Tracks()
      reads this`g, g.Keys
    {
      forall n :: n in g ==> g[n] == Cell(n.parent, n.kid0, n.kid1, n.value)
    }

    ghost predicate ValidBut(lax: Node<V>)
      reads this, g.Keys
    {
      Tracks() && WellFormed(g, head, bits, lax) && Indexed(g, handles, live)
    }

    ghost predicate Valid()
      reads this, g.Keys
    {
      ValidBut(head)
    }

    constructor (bits: nat)
      requires bits > 0
      ensures Valid() && fresh(g.Keys) && this.bits == bits && live == map[] && handles == map[]
    {
      this.bits := bits;
      var h := new Node(Zeros(bits), Zeros(bits), None, 0);
      head := h;
      g := map[h := Cell(null, null, null, None)];
      handles, live := map[], map[];
    }

    lemma Basics()
      requires Valid()
      ensures head in g && handles.Keys == live.Keys
    {
    }

    lemma KidsMatch(n: Node<V>, key: Word)
      requires Valid() && n in g && |key| == bits
      ensures n.kid0 != null ==> n.kid0.Tidy(bits) && (n.kid0.Matches(key) <==> n.kid0.prefix <= key)
      ensures n.kid1 != null ==> n.kid1.Tidy(bits) && (n.kid1.Matches(key) <==> n.kid1.prefix <= key)
    {
      assert CellOk(g, head, bits, n);
      if n.kid0 != null {
        assert CellOk(g, head, bits, n.kid0);
        n.kid0.MatchesIsPrefix(key);
      }
      if n.kid1 != null {
        assert CellOk(g, head, bits, n.kid1);
        n.kid1.MatchesIsPrefix(key);
      }
    }

    method LookupHandle(key: Word) returns (h: Node?<V>)
      requires Valid() && |key| == bits
      ensures h != null ==> h in g && h.prefix in handles && handles[h.prefix] == h
      ensures FirstLive(live, key, 0) == if h == null then None else Some(h.prefix)
    {
      var node: Node?<V> := head;
      ghost var i := 0;
      while node != null
        invariant i <= bits + 1 && FirstLive(live, key, i) == FirstLive(live, key, 0)
        invariant node != null ==> node in g && node.prefix <= key && |node.prefix| == i
        invariant node == null ==> i == bits + 1
        decreases bits + 1 - i
      {
        if node.value.Some? {
          assert key[..i] == node.prefix;
          return node;
        }
        assert CellOk(g, head, bits, node);
        KidsMatch(node, key);
        var next: Node?<V>;
        if node.kid0 != null && node.kid0.Matches(key) {
          next := node.kid0;
        } else if node.kid1 != null && node.kid1.Matches(key) {
          next := node.kid1;
        } else {
          next := null;
        }
        ghost var j := if next == null then bits + 1 else |next.prefix|;
        NoLiveBetween(g, head, bits, handles, live, node, next, key, j);
        FirstLiveSkips(live, key, i, j);
        node, i := next, j;
      }
      return null;
    }

    method Lookup(key: Word) returns (r: Option<V>)
      requires Valid() && |key| == bits
      ensures var p := FirstLive(live, key, 0); r == if p == None then None else Some(live[p.value])
    {
      var node := LookupHandle(key);
      r := if node != null then node.value else None;
    }

    predicate GoesAfter(kid: Node?<V>, key: Word, newMask: Word)
      requires kid != null ==> |key| == |kid.mask| == |newMask|
    {
      kid != null && kid.Matches(key) && And(kid.mask, newMask) == kid.mask
    }

    lemma GoesAfterIsPrefix(kid: Node<V>, p: seq<bool>)
      requires |p| <= bits && kid.Tidy(bits)
      ensures GoesAfter(kid, p + Zeros(bits - |p|), PrefixMask(|p|, bits)) <==> kid.prefix <= p
    {
      kid.MatchesIsPrefix(p + Zeros(bits - |p|));
      PrefixMaskOrder(|kid.prefix|, |p|, bits);
      assert |kid.prefix| <= |p| ==> (p + Zeros(bits - |p|))[..|kid.prefix|] == p[..|kid.prefix|];
    }

    /** The first loop of insert: the deepest node that the new entry belongs under. */
    method WalkDown(key: Word, newMask: Word, ghost p: seq<bool>) returns (node: Node<V>)
      requires Valid() && |p| <= bits && key == p + Zeros(bits - |p|) && newMask == PrefixMask(|p|, bits)
      ensures node in g && node.prefix <= p && StepsTo(g[node], null, p)
    {
      node := head;
      while true
        invariant node in g && node.prefix <= p
        decreases |p| - |node.prefix|
      {
        assert CellOk(g, head, bits, node);
        if node.kid0 != null {
          assert CellOk(g, head, bits, node.kid0);
          GoesAfterIsPrefix(node.kid0, p);
        }
        if node.kid1 != null {
          assert CellOk(g, head, bits, node.kid1);
          GoesAfterIsPrefix(node.kid1, p);
        }
        if GoesAfter(node.kid0, key, newMask) {
          node := node.kid0;
        } else if GoesAfter(node.kid1, key, newMask) {
          node := node.kid1;
        } else {
          return;
        }
      }
    }

    /** The inner loop of insert: how far key agrees with a kid, but no further than the new mask. */
    method WalkLeg(from: Word, key: Word, kidKey: Word, newMask: Word, ghost c: nat, ghost w: nat)
      returns (last: Word, ghost l: nat)
      requires |key| == |kidKey| == bits && c <= w <= bits && bits > 0
      requires from == PrefixMask(c, bits) && newMask == PrefixMask(w, bits) && key[..c] == kidKey[..c]
      ensures c <= l <= w && last == PrefixMask(l, bits) && key[..l] == kidKey[..l]
      ensures l < w ==> key[l] != kidKey[l]
    {
      var cur := from;
      last, l := cur, c;
      while true
        invariant c <= l <= w && last == PrefixMask(l, bits) && cur == last && key[..l] == kidKey[..l]
        decreases w - l
      {
        cur := ExtendMask(cur);
        ExtendMaskIsNextPrefixMask(l, bits);
        PrefixMaskOrder(l, w, bits);
        if l < bits {
          AndPrefixMask(key, l + 1);
          AndPrefixMask(kidKey, l + 1);
          SameTop(key, kidKey, l + 1);
          assert key[..l + 1] == key[..l] + [key[l]] && kidKey[..l + 1] == kidKey[..l] + [kidKey[l]];
        }
        if And(key, cur) != And(kidKey, cur) || last == newMask {
          return;
        }
        last, l := cur, l + 1;
      }
    }

    /** What every way through insert leaves behind. */
    twostate predicate Inserted(p: seq<bool>, val: V, new h: Node<V>)
      reads this, g.Keys
    {
      && Valid()
      && old(g.Keys) <= g.Keys && fresh(g.Keys - old(g.Keys))
      && handles == old(handles)[p := h]
      && live == old(live)[p := val]
    }

    method SetParent(k: Node<V>, p: Node<V>)
      requires Tracks() && k in g
      modifies this`g, k`parent
      ensures Tracks() && g == old(g)[k := old(g)[k].(parent := p)]
    {
      k.parent := p;
      g := g[k := g[k].(parent := p)];
    }

    method SetKid(n: Node<V>, i: nat, k: Node?<V>)
      requires Tracks() && n in g && i < 2
      modifies this`g, n`kid0, n`kid1
      ensures Tracks() && g == old(g)[n := old(g)[n].WithKid(i, k)]
    {
      if i == 0 {
        n.kid0 := k;
      } else {
        n.kid1 := k;
      }
      g := g[n := g[n].WithKid(i, k)];
    }

    method NewLeaf(n: Node<V>, i: nat, key: Word, newMask: Word, ghost w: nat, val: V) returns (h: Node<V>)
      requires Tracks() && n in g && i < 2 && w <= |key| && newMask == PrefixMask(w, |key|)
      modifies this`g, n`kid0, n`kid1
      ensures fresh(h) && h !in old(g) && h.Tidy(|key|) && h.prefix == key[..w]
      ensures Tracks() && g == WithLeaf(old(g), n, i, h, val)
    {
      h := new Node(key, newMask, Some(val), w);
      h.parent := n;
      g := g[h := Cell(n, null, null, Some(val))];
      SetKid(n, i, h);
    }

    /** A new node between n and kid that neither of them knows of yet. */
    method Adopt(n: Node<V>, kid: Node<V>, key: Word, mask: Word, ghost l: nat) returns (mid: Node<V>)
      requires Tracks() && l <= |key| && mask == PrefixMask(l, |key|)
      modifies this`g
      ensures fresh(mid) && mid !in old(g) && mid.Tidy(|key|) && mid.prefix == key[..l]
      ensures Tracks() && g == old(g)[mid := Cell(n, kid, null, None)]
    {
      mid := new Node(key, mask, None, l);
      mid.parent := n;
      mid.kid0 := kid;
      g := g[mid := Cell(n, kid, null, None)];
    }

    method NewMid(n: Node<V>, i: nat, kid: Node<V>, key: Word, mask: Word, ghost l: nat) returns (mid: Node<V>)
      requires Tracks() && n in g && kid in g && n != kid && i < 2 && l <= |key| && mask == PrefixMask(l, |key|)
      modifies this`g, n`kid0, n`kid1, kid`parent
      ensures fresh(mid) && mid !in old(g) && mid.Tidy(|key|) && mid.prefix == key[..l]
      ensures Tracks() && g == WithMid(old(g), n, i, mid, kid)
    {
      hide *;
      mid := Adopt(n, kid, key, mask, l);
      SetParent(kid, mid);
      SetKid(n, i, mid);
      SameWithMid(old(g), n, i, mid, kid);
    }

    method AddLeaf(n: Node<V>, i: nat, key: Word, newMask: Word, ghost w: nat, val: V) returns (h: Node<V>)
      requires ValidBut(n) && n in g && i < 2 && g[n].Kid(i) == null && (i == 0 ==> n == head || Needed(g[n]))
      requires |key| == bits && w <= bits && newMask == PrefixMask(w, bits) && key[..w] !in handles
      requires n.prefix <= key[..w] && |n.prefix| < w
      requires i == 1 ==> g[n].kid0 != null && |n.prefix| < |g[n].kid0.prefix| &&
                          g[n].kid0.prefix[|n.prefix|] != key[|n.prefix|]
      modifies this, g.Keys
      ensures Inserted(key[..w], val, h)
    {
      hide WellFormed, Indexed;
      ghost var before := g;
      h := NewLeaf(n, i, key, newMask, w, val);
      AddLeafStep(before, head, bits, handles, live, n, i, h, val);
      handles, live := handles[h.prefix := h], live[h.prefix := val];
    }

    method Split(n: Node<V>, i: nat, key: Word, mask: Word, ghost l: nat) returns (mid: Node<V>)
      requires Valid() && n in g && i < 2 && g[n].Kid(i) != null
      requires |key| == bits && l <= bits && mask == PrefixMask(l, bits)
      requires n.prefix <= key[..l] <= g[n].Kid(i).prefix && |n.prefix| < l < |g[n].Kid(i).prefix|
      modifies this, g.Keys
      ensures ValidBut(mid) && fresh(mid) && mid in g && mid.prefix == key[..l]
      ensures g.Keys == old(g.Keys) + {mid} && handles == old(handles) && live == old(live)
      ensures g[mid] == Cell(n, old(g[n].Kid(i)), null, None)
    {
      ghost var before := g;
      var kid: Node<V> := if i == 0 then n.kid0 else n.kid1;
      KidLink(g, head, bits, n, i);
      mid := NewMid(n, i, kid, key, mask, l);
      SplitStep(before, head, bits, handles, live, n, i, mid);
    }

    method SetValue(n: Node<V>, val: V)
      requires ValidBut(n) && n in g && n != head && n.value == None && n.prefix !in handles
      modifies this, g.Keys
      ensures Inserted(n.prefix, val, n)
    {
      SetValueKeeps(g, head, bits, n, n, Some(val));
      ghost var next: Graph<V> := g[n := g[n].(value := Some(val))];
      IndexedAdd(g, next, handles, live, n, val);
      n.value := Some(val);
      g, handles, live := next, handles[n.prefix := n], live[n.prefix := val];
    }

    /** One turn of insert's for loop; null when leg i is not the right one. */
    method TryLeg(node: Node<V>, i: nat, key: Word, newMask: Word, ghost w: nat, val: V) returns (h: Node?<V>)
      requires |key| == bits && w <= bits && newMask == PrefixMask(w, bits) && key[..w] !in live
      requires Valid() && node in g && i < 2 && StepsTo(g[node], null, key[..w])
      requires node.prefix <= key[..w] && |node.prefix| < w
      requires i == 1 ==> node.kid0 != null && Parts(node, node.kid0, key)
      modifies this, g.Keys
      ensures h != null ==> Inserted(key[..w], val, h)
      ensures h == null ==> unchanged(this) && unchanged(g.Keys)
      ensures h == null ==> g[node].Kid(i) != null && Parts(node, g[node].Kid(i), key)
    {
      var kid := if i == 0 then node.kid0 else node.kid1;
      if kid == null {
        assert Needed(g[node]) || node == head;
        h := AddLeaf(node, i, key, newMask, w, val);
        return;
      }
      var curMask, l := LegEnd(node, i, kid, key, newMask, w);
      if curMask == node.mask {
        return null;
      }
      if curMask == newMask {
        h := SplitHere(node, i, key, newMask, w, val);
      } else {
        h := SplitAndBranch(node, i, key, curMask, newMask, l, w, val);
      }
    }

    /** The new entry lies on the edge itself. */
    method SplitHere(n: Node<V>, i: nat, key: Word, newMask: Word, ghost w: nat, val: V) returns (mid: Node<V>)
      requires Valid() && n in g && i < 2 && g[n].Kid(i) != null
      requires |key| == bits && w <= bits && newMask == PrefixMask(w, bits) && key[..w] !in live
      requires n.prefix <= key[..w] <= g[n].Kid(i).prefix && |n.prefix| < w < |g[n].Kid(i).prefix|
      modifies this, g.Keys
      ensures Inserted(key[..w], val, mid)
    {
      hide WellFormed;
      mid := Split(n, i, key, newMask, w);
      SetValue(mid, val);
    }

    /** The new entry leaves the edge after its first l bits. */
    method SplitAndBranch(n: Node<V>, i: nat, key: Word, curMask: Word, newMask: Word, ghost l: nat, ghost w: nat, val: V)
      returns (h: Node<V>)
      requires Valid() && n in g && i < 2 && g[n].Kid(i) != null
      requires |key| == bits && l < w <= bits && curMask == PrefixMask(l, bits)
      requires newMask == PrefixMask(w, bits) && key[..w] !in live
      requires n.prefix <= key[..l] <= g[n].Kid(i).prefix && |n.prefix| < l < |g[n].Kid(i).prefix|
      requires key[l] != g[n].Kid(i).prefix[l]
      modifies this, g.Keys
      ensures Inserted(key[..w], val, h)
    {
      hide WellFormed;
      var mid := Split(n, i, key, curMask, l);
      h := AddLeaf(mid, 1, key, newMask, w, val);
    }

    /** The first bit past node's prefix tells k and key apart. */
    ghost predicate Parts(node: Node<V>, k: Node<V>, key: Word) {
      |node.prefix| < |k.prefix| && |node.prefix| < |key| && k.prefix[|node.prefix|] != key[|node.prefix|]
    }

    method LegEnd(node: Node<V>, i: nat, kid: Node<V>, key: Word, newMask: Word, ghost w: nat)
      returns (curMask: Word, ghost l: nat)
      requires |key| == bits && w <= bits && newMask == PrefixMask(w, bits)
      requires Valid() && node in g && i < 2 && g[node].Kid(i) == kid && !(kid.prefix <= key[..w])
      requires node.prefix <= key[..w] && |node.prefix| < w
      ensures |node.prefix| <= l <= w && l < |kid.prefix| && curMask == PrefixMask(l, bits)
      ensures node.prefix <= key[..l] <= kid.prefix
      ensures curMask == node.mask <==> l == |node.prefix|
      ensures curMask == newMask <==> l == w
      ensures l < w ==> key[l] != kid.prefix[l]
    {
      KidLink(g, head, bits, node, i);
      assert CellOk(g, head, bits, node) && CellOk(g, head, bits, kid);
      assert key[..|node.prefix|] == kid.key[..|node.prefix|];
      curMask, l := WalkLeg(node.mask, key, kid.key, newMask, |node.prefix|, w);
      PrefixMaskOrder(l, |node.prefix|, bits);
      PrefixMaskOrder(l, w, bits);
      LegEndsInsideKid(kid, key, w, l);
    }

    /** The mask of the top bits that the entry is about, and the key with the others cleared. */
    method MaskedKey(fullKey: Word, width: nat) returns (newMask: Word, key: Word)
      requires |fullKey| == bits
      ensures var p := Top(fullKey, width);
              && newMask == PrefixMask(|p|, bits) && key == p + Zeros(bits - |p|) && |key| == bits && key[..|p|] == p
    {
      newMask := Ones(bits);
      if width < bits {
        newMask := KeyShiftLeft(newMask, bits - width);
      }
      ghost var p := Top(fullKey, width);
      assert newMask == PrefixMask(|p|, bits);
      key := And(fullKey, newMask);
      AndPrefixMask(fullKey, |p|);
      assert key[..|p|] == p;
    }

    method Insert(fullKey: Word, width: nat, val: V) returns (h: Node<V>)
      requires Valid() && |fullKey| == bits && 1 <= width && Top(fullKey, width) !in live
      modifies this, g.Keys
      ensures Inserted(Top(fullKey, width), val, h)
    {
      ghost var p := Top(fullKey, width);
      ghost var w := |p|;
      var newMask, key := MaskedKey(fullKey, width);
      var node := WalkDown(key, newMask, p);
      PrefixMaskOrder(|node.prefix|, w, bits);
      assert CellOk(g, head, bits, node);
      if node.mask == newMask {
        assert node.prefix == p;
        SetValue(node, val);
        return node;
      }
      for i := 0 to 2
        invariant unchanged(this) && unchanged(g.Keys)
        invariant i > 0 ==> node.kid0 != null && Parts(node, node.kid0, key)
        invariant i > 1 ==> node.kid1 != null && Parts(node, node.kid1, key)
      {
        var leaf := TryLeg(node, i, key, newMask, w, val);
        if leaf != null {
          return leaf;
        }
      }
      assert false;
      h := node;
    }

    /** The legs of insert part inside the edge to a kid that WalkDown did not step into. */
    lemma LegEndsInsideKid(kid: Node<V>, key: Word, w: nat, l: nat)
      requires |key| == bits && kid.Tidy(bits) && l <= w <= bits && !(kid.prefix <= key[..w])
      requires key[..l] == kid.key[..l] && (l < w ==> key[l] != kid.key[l])
      ensures l < |kid.prefix| && key[..l] == kid.prefix[..l] && (l < w ==> key[l] != kid.prefix[l])
    {
      if l < |kid.prefix| {
        assert kid.key[..l] == kid.prefix[..l];
      }
    }

    /** The middle of remove: node's kid moves up into node's place. */
    method Unlink(node: Node<V>, parent: Node<V>)
      requires Tracks() && node in g && node.kid1 == null && node.parent == parent
      requires parent in g && parent != node && g[parent].HasKid(node)
      requires node.kid0 != null ==> node.kid0 in g && node.kid0 != parent
      modifies this`g, parent`kid0, parent`kid1, g.Keys`parent
      ensures Tracks() && g == Spliced(old(g), node)
    {
      if node.kid0 != null {
        node.kid0.parent := parent;
      }
      if parent.kid0 == node {
        parent.kid0 := node.kid0;
      } else if parent.kid1 == node {
        parent.kid1 := node.kid0;
      } else {
        assert false;
      }
      if parent.kid1 != null && parent.kid0 == null {
        parent.kid0 := parent.kid1;
        parent.kid1 := null;
      }
      g := Spliced(g, node);
    }

    method DropValue(node: Node<V>)
      requires ValidBut(node) && node in g && node != head && node.value.Some? && node.kid1 != null
      modifies this, node
      ensures Valid() && g.Keys == old(g.Keys)
      ensures handles == old(handles) - {node.prefix} && live == old(live) - {node.prefix}
    {
      SetValueKeeps(g, head, bits, node, node, None);
      node.value := None;
      g := g[node := g[node].(value := None)];
      handles, live := handles - {node.prefix}, live - {node.prefix};
    }

    method Splice(node: Node<V>) returns (parent: Node<V>)
      requires ValidBut(node) && node in g && node != head && node.kid1 == null
      modifies this, g.Keys
      ensures parent == old(node.parent) && parent in old(g) && |parent.prefix| < |node.prefix|
      ensures ValidBut(parent) && g.Keys == old(g.Keys) - {node}
      ensures parent in g && g[parent] == Rejoined(old(g)[parent], node, old(node.kid0))
      ensures handles == old(handles) - (if old(node.value).Some? then {node.prefix} else {})
      ensures live == old(live) - (if old(node.value).Some? then {node.prefix} else {})
    {
      hide WellFormed, Indexed, Spliced, Rejoined;
      SpliceStep(g, head, bits, handles, live, node);
      parent := node.parent;
      ghost var val := node.value;
      Unlink(node, parent);
      if val.Some? {
        handles, live := handles - {node.prefix}, live - {node.prefix};
      }
    }

    /** Frees the entry at a handle; a parent left with one kid and no value goes too. */
    method Remove(node: Node<V>) returns (val: Option<V>)
      requires ValidBut(node) && node in g && node != head
      requires node.value.Some? || (node.kid0 != null && node.kid1 == null)
      modifies this, g.Keys
      ensures Valid() && val == old(node.value) && g.Keys <= old(g.Keys)
      ensures handles == old(handles) - (if val.Some? then {node.prefix} else {})
      ensures live == old(live) - (if val.Some? then {node.prefix} else {})
      decreases |node.prefix|
    {
      hide WellFormed, Indexed;
      val := node.value;
      if node.kid1 != null {
        DropValue(node);
        return;
      }
      ghost var before := g;
      var parent := Splice(node);
      AfterSplice(before, g, head, bits, node, parent);
      if parent.kid1 == null && parent.value == None && parent.parent != null {
        var none := Remove(parent);
      }
    }

    /** Removes the entry that Lookup finds. */
    method RemoveKey(key: Word) returns (val: Option<V>)
      requires Valid() && |key| == bits
      modifies this, g.Keys
      ensures Valid() && g.Keys <= old(g.Keys)
      ensures var p := FirstLive(old(live), key, 0);
              if p == None then val == None && live == old(live) && handles == old(handles)
              else val == Some(old(live)[p.value]) && live == old(live) - {p.value} && handles == old(handles) - {p.value}
    {
      var handle := LookupHandle(key);
      if handle == null {
        return None;
      }
      val := Remove(handle);
    }

    /** Remove, in terms of the prefix that the handle was inserted for. */
    method EraseHandle(ghost p: seq<bool>, handle: Node<V>) returns (val: Option<V>)
      requires Valid() && p in live && handles[p] == handle
      modifies this, g.Keys
      ensures Valid() && g.Keys <= old(g.Keys) && handles == old(handles) - {p} && live == old(live) - {p}
      ensures val == Some(old(live)[p])
    {
      val := Remove(handle);
    }

    method Clear()
      requires Valid()
      modifies this, head
      ensures Valid() && live == map[] && handles == map[] && g.Keys == {head}
    {
      assert CellOk(g, head, bits, head);
      assert head.Tidy(bits);
      head.kid1 := null;
      head.kid0 := null;
      g := map[head := Cell(null, null, null, None)];
      handles, live := map[], map[];
    }
  }

  // The trie stays small: at most two nodes besides the root for every live entry.

  ghost function Kids<V>(g: Graph<V>, s: set<Node<V>>): set<Node<V>> {
    set n | n in g && g[n].parent != null && g[n].parent in s
  }

  lemma {:induction false} TwoKidsEach<V>(g: Graph<V>, head: Node<V>, bits: nat, s: set<Node<V>>)
    requires WellFormed(g, head, bits, head)
    requires forall n :: n in s ==> n in g && n != head && g[n].value == None
    ensures |Kids(g, s)| == 2 * |s|
  {
    if s == {} {
      assert Kids(g, s) == {};
    } else {
      var x :| x in s;
      TwoKidsEach(g, head, bits, s - {x});
      assert CellOk(g, head, bits, x) && Needed(g[x]);
      var a, b := g[x].kid0, g[x].kid1;
      forall n | n in g && g[n].parent == x
        ensures n == a || n == b
      {
        assert CellOk(g, head, bits, n);
      }
      assert Kids(g, s) == Kids(g, s - {x}) + {a, b};
      assert |s| == |s - {x}| + 1;
    }
  }

  lemma {:induction false} OneHandleEach<V>(handles: map<seq<bool>, Node<V>>, ps: set<seq<bool>>)
    requires ps <= handles.Keys && forall p :: p in handles ==> handles[p].prefix == p
    ensures |set p | p in ps :: handles[p]| == |ps|
  {
    if ps != {} {
      var x :| x in ps;
      OneHandleEach(handles, ps - {x});
      assert (set p | p in ps :: handles[p]) == (set p | p in ps - {x} :: handles[p]) + {handles[x]};
      assert |ps| == |ps - {x}| + 1;
    }
  }

  ghost function Inner<V>(g: Graph<V>, head: Node<V>): set<Node<V>> {
    set n | n in g && n != head && g[n].value == None
  }

  lemma InnerOrLive<V>(g: Graph<V>, head: Node<V>, handles: map<seq<bool>, Node<V>>, live: map<seq<bool>, V>)
    requires Indexed(g, handles, live) && head in g && g[head].value == None
    ensures |g| == 1 + |Inner(g, head)| + |live|
  {
    var inner, cargo := Inner(g, head), set p | p in handles.Keys :: handles[p];
    ThreeKinds(g, head, handles, live);
    OneHandleEach(handles, handles.Keys);
    ThreeParts(head, inner, cargo, g.Keys);
    assert |g.Keys| == |g| && |live.Keys| == |live|;
  }

  lemma ThreeKinds<V>(g: Graph<V>, head: Node<V>, handles: map<seq<bool>, Node<V>>, live: map<seq<bool>, V>)
    requires Indexed(g, handles, live) && head in g && g[head].value == None
    ensures var cargo := set p | p in handles.Keys :: handles[p];
            g.Keys == {head} + Inner(g, head) + cargo && Inner(g, head) !! cargo && head !in cargo
  {
    var cargo := set p | p in handles.Keys :: handles[p];
    forall n | n in g.Keys
      ensures n == head || n in Inner(g, head) || n in cargo
    {
      if g[n].value.Some? {
        assert handles[n.prefix] == n;
      }
    }
  }

  lemma ThreeParts<T>(x: T, a: set<T>, b: set<T>, all: set<T>)
    requires all == {x} + a + b && x !in a && x !in b && a !! b
    ensures |all| == 1 + |a| + |b|
  {
    assert |{x} + a| == 1 + |a|;
    assert |{x} + a + b| == |{x} + a| + |b|;
  }

  lemma NodeCount<V>(g: Graph<V>, head: Node<V>, bits: nat, handles: map<seq<bool>, Node<V>>, live: map<seq<bool>, V>)
    requires WellFormed(g, head, bits, head) && Indexed(g, handles, live)
    ensures |g| <= 1 + 2 * |live|
  {
    var inner := Inner(g, head);
    InnerOrLive(g, head, handles, live);
    TwoKidsEach(g, head, bits, inner);
    CardinalityMonotone(Kids(g, inner) + {head}, g.Keys);
    assert |Kids(g, inner) + {head}| == 2 * |inner| + 1;
    assert |g.Keys| == |g|;
  }

  lemma {:induction false} CardinalityMonotone<T>(a: set<T>, b: set<T>)
    requires a <= b
    ensures |a| <= |b|
  {
    assert b == a + (b - a);
  }

  // Whole runs against the specification, a finite map from prefixes to values.

  datatype Op<V> =
    | OpInsert(key: Word, width: nat, val: V)
    | OpLookup(key: Word)
    | OpRemove(key: Word)
    | OpErase(prefix: seq<bool>)  // remove, by the handle that insert returned for the prefix
    | OpClear

  function Apply<V>(live: map<seq<bool>, V>, op: Op<V>): map<seq<bool>, V> {
    match op
    case OpLookup(key) => live
    case OpInsert(key, width, val) => live[Top(key, width) := val]
    case OpRemove(key) =>
      var p := FirstLive(live, key, 0);
      if p.Some? then live - {p.value} else live
    case OpErase(p) => live - {p}
    case OpClear => map[]
  }

  function After<V>(ops: seq<Op<V>>): map<seq<bool>, V> {
    if ops == [] then map[] else Apply(After(ops[..|ops| - 1]), ops[|ops| - 1])
  }

  /** What the operations assert of their caller: insert a prefix that is not live, and remove a handle that is. */
  predicate Legal<V>(bits: nat, live: map<seq<bool>, V>, op: Op<V>) {
    match op
    case OpInsert(key, width, val) => |key| == bits && 1 <= width && Top(key, width) !in live
    case OpLookup(key) => |key| == bits
    case OpRemove(key) => |key| == bits
    case OpErase(p) => p in live
    case OpClear => true
  }

  /** What the caller of an operation gets back. */
  function Answer<V>(live: map<seq<bool>, V>, op: Op<V>): Option<V> {
    match op
    case OpLookup(key) => Found(live, FirstLive(live, key, 0))
    case OpRemove(key) => Found(live, FirstLive(live, key, 0))
    case OpErase(p) => Found(live, Some(p))
    case _ => None
  }

  function Found<V>(live: map<seq<bool>, V>, p: Option<seq<bool>>): Option<V> {
    if p.Some? && p.value in live then Some(live[p.value]) else None
  }

  function Answers<V>(ops: seq<Op<V>>): seq<Option<V>> {
    if ops == [] then []
    else
      var before := ops[..|ops| - 1];
      Answers(before) + [Answer(After(before), ops[|ops| - 1])]
  }

  /** The caller has kept the handles of all live entries. */
  ghost predicate AllKept<V>(handles: map<seq<bool>, Node<V>>, kept: map<seq<bool>, Node<V>>) {
    forall p :: p in handles ==> p in kept && kept[p] == handles[p]
  }

  lemma KeepOneMore<V>(handles: map<seq<bool>, Node<V>>, kept: map<seq<bool>, Node<V>>, p: seq<bool>, h: Node<V>)
    requires AllKept(handles, kept)
    ensures AllKept(handles[p := h], kept[p := h])
  {
  }

  lemma KeepOneLess<V>(handles: map<seq<bool>, Node<V>>, kept: map<seq<bool>, Node<V>>, p: seq<bool>)
    requires AllKept(handles, kept)
    ensures AllKept(handles - {p}, kept) && (p in handles ==> p in kept && kept[p] == handles[p])
  {
  }

  method Perform<V>(t: Trie<V>, op: Op<V>, kept: map<seq<bool>, Node<V>>)
    returns (answer: Option<V>, kept': map<seq<bool>, Node<V>>)
    requires t.Valid() && Legal(t.bits, t.live, op) && AllKept(t.handles, kept)
    modifies t, t.g.Keys
    ensures t.Valid() && fresh(t.g.Keys - old(t.g.Keys)) && AllKept(t.handles, kept')
    ensures t.live == Apply(old(t.live), op) && answer == Answer(old(t.live), op)
  {
    t.Basics();
    assert AllKept(map[], kept);
    hide FirstLive, WellFormed, Indexed, AllKept;
    answer, kept' := None, kept;
    match op {
      case OpInsert(key, width, val) =>
        var h := t.Insert(key, width, val);
        kept' := kept[Top(key, width) := h];
        KeepOneMore(old(t.handles), kept, Top(key, width), h);
      case OpLookup(key) => answer := t.Lookup(key);
      case OpRemove(key) =>
        ghost var p := FirstLive(t.live, key, 0);
        if p.Some? {
          KeepOneLess(t.handles, kept, p.value);
        }
        answer := t.RemoveKey(key);
      case OpErase(p) =>
        KeepOneLess(t.handles, kept, p);
        answer := t.EraseHandle(p, kept[p]);
      case OpClear => t.Clear();
    }
  }

  method Run<V>(bits: nat, ops: seq<Op<V>>) returns (t: Trie<V>, answers: seq<Option<V>>)
    requires bits > 0
    requires forall i {:trigger ops[i]} :: 0 <= i < |ops| ==> Legal(bits, After(ops[..i]), ops[i])
    ensures t.Valid() && t.bits == bits && t.live == After(ops) && answers == Answers(ops)
    ensures |t.g| <= 1 + 2 * |t.live|
  {
    hide WellFormed, Indexed, Legal, Apply, Answer;
    t := new Trie(bits);
    answers := [];
    var kept: map<seq<bool>, Node<V>> := map[];
    for i := 0 to |ops|
      invariant t.Valid() && fresh(t) && fresh(t.g.Keys) && t.bits == bits && AllKept(t.handles, kept)
      invariant t.live == After(ops[..i]) && answers == Answers(ops[..i])
    {
      assert ops[..i + 1][..i] == ops[..i];
      var answer;
      answer, kept := Perform(t, ops[i], kept);
      answers := answers + [answer];
    }
    assert ops[..|ops|] == ops;
    NodeCount(t.g, t.head, t.bits, t.handles, t.live);
  }
}
