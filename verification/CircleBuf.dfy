/** The overwriting ring buffer and the FIFO of base/circlebuf.hh. */
module CircleBufs {
  import opened Arith
  import opened Options

  const MAX_ELEMENTS := TWO64 / 2  // no object is larger, so sums of two lengths do not wrap

  /** The last n elements of s, or all of them. */
  function LastOf<T>(s: seq<T>, n: nat): seq<T> {
    if |s| <= n then s else s[|s| - n..]
  }

  /** The place in a buffer of m elements of a stream position. */
  function Slot(position: nat, m: nat): (r: nat)
    requires m > 0
    ensures r < m
  {
    position % m
  }

  /** The wrap of size_t at 2^64 does not reach the position, or does not matter to a buffer of m elements. */
  predicate Keeps(position: nat, m: nat) {
    position < TWO64 || (m > 0 && TWO64 % m == 0)
  }

  /** Reducing a stream position to a place in the buffer survives the wrap of size_t just if the capacity divides 2^64. */
  lemma PlaceSurvivesWrap(position: nat, m: nat)
    requires m > 0 && position < 2 * TWO64
    ensures Slot(position % TWO64, m) == Slot(position, m) <==> Keeps(position, m)
  {
    if position >= TWO64 {
      var rest := position - TWO64;
      assert position % TWO64 == rest;
      ModAdd(m, TWO64, rest);
      if TWO64 % m != 0 {
        ModAdd(m, rest, TWO64 % m);
        ModDistinct(m, rest, TWO64 % m);
        ModAdd(m, TWO64, rest);
      }
    }
  }

  /** The used elements of a ring from stream position start. */
  ghost function Ring<T>(b: seq<T>, start: nat, used: nat): (r: seq<T>)
    requires used <= |b|
    ensures |r| == used
  {
    seq(used, i requires 0 <= i < used => b[Slot(start + i, |b|)])
  }

  /** The ring is at most two runs of the buffer. */
  function Runs<T>(b: seq<T>, next: nat, len: nat): (r: seq<T>)
    requires next < |b| && len <= |b|
    ensures |r| == len
  {
    if |b| - next < len then b[next..] + b[..len - (|b| - next)] else b[next..next + len]
  }

  lemma Place(m: nat, x: nat, j: nat)
    requires m > 0 && j < m
    ensures Slot(x + j, m) == if Slot(x, m) + j < m then Slot(x, m) + j else Slot(x, m) + j - m
  {
    ModAdd(m, x, j);
    ModSmall(m, x % m + j);
  }

  lemma SamePlace(m: nat, x: nat, y: nat, i: nat)
    requires m > 0 && Slot(x, m) == Slot(y, m)
    ensures Slot(x + i, m) == Slot(y + i, m)
  {
    ModAdd(m, x, i);
    ModAdd(m, y, i);
  }

  lemma RingSame<T>(b: seq<T>, start: nat, start': nat, used: nat)
    requires 0 < |b| && used <= |b| && Slot(start', |b|) == Slot(start, |b|)
    ensures Ring(b, start', used) == Ring(b, start, used)
  {
    forall i | 0 <= i < used
      ensures Ring(b, start', used)[i] == Ring(b, start, used)[i]
    {
      SamePlace(|b|, start', start, i);
    }
  }

  lemma RunsAt<T>(b: seq<T>, x: nat, len: nat, j: nat)
    requires 0 < |b| && len <= |b| && j < len
    ensures Runs(b, Slot(x, |b|), len)[j] == b[Slot(x + j, |b|)]
  {
    Place(|b|, x, j);
  }

  lemma RingIsRuns<T>(b: seq<T>, start: nat, used: nat, offset: nat, len: nat)
    requires 0 < |b| && used <= |b| && offset + len <= used
    ensures Ring(b, start, used)[offset..offset + len] == Runs(b, Slot(start + offset, |b|), len)
  {
    var r := Runs(b, Slot(start + offset, |b|), len);
    hide Runs, Slot;
    forall j | 0 <= j < len
      ensures Ring(b, start, used)[offset + j] == r[j]
    {
      RunsAt(b, start + offset, len, j);
    }
  }

  /** b with xs written over it from place next, wrapping around. */
  ghost predicate WrittenAt<T>(b: seq<T>, after: seq<T>, next: nat, xs: seq<T>) {
    && |after| == |b| && |xs| <= |b| && next < |b|
    && (forall k {:trigger xs[k]} :: 0 <= k < |xs| ==> after[if next + k < |b| then next + k else next + k - |b|] == xs[k])
    && (forall j :: 0 <= j < |b| && !(next <= j < next + |xs|) && !(j + |b| < next + |xs|) ==> after[j] == b[j])
  }

  lemma KeptElement<T>(b: seq<T>, after: seq<T>, start: nat, used: nat, xs: seq<T>, i: nat)
    requires 0 < |b| && used <= |b| && WrittenAt(b, after, Slot(start + used, |b|), xs)
    requires i < used && used + |xs| - i <= |b|
    ensures after[Slot(start + i, |b|)] == b[Slot(start + i, |b|)]
  {
    var m, x := |b|, start + i;
    var d := used - i;
    if d < m {
      Place(m, x, d);
    } else {
      assert xs == [];
    }
  }

  lemma NewElement<T>(b: seq<T>, after: seq<T>, start: nat, used: nat, xs: seq<T>, k: nat)
    requires 0 < |b| && used <= |b| && WrittenAt(b, after, Slot(start + used, |b|), xs) && k < |xs|
    ensures after[Slot(start + used + k, |b|)] == xs[k]
  {
    Place(|b|, start + used, k);
  }

  /** Writing at the end leaves the last elements of the old contents and the input. */
  lemma RingWritten<T>(b: seq<T>, after: seq<T>, start: nat, used: nat, xs: seq<T>, overflow: nat)
    requires 0 < |b| && used <= |b| && WrittenAt(b, after, Slot(start + used, |b|), xs)
    requires overflow == if used + |xs| > |b| then used + |xs| - |b| else 0
    ensures Ring(after, start + overflow, used + |xs| - overflow) == LastOf(Ring(b, start, used) + xs, |b|)
  {
    var all := Ring(b, start, used) + xs;
    var r := Ring(after, start + overflow, used + |xs| - overflow);
    forall i | 0 <= i < |r|
      ensures r[i] == all[overflow + i]
    {
      RingElement(b, after, start, used, xs, overflow + i);
    }
    assert r == all[overflow..];
    assert all[0..] == all;
  }

  lemma RingElement<T>(b: seq<T>, after: seq<T>, start: nat, used: nat, xs: seq<T>, i: nat)
    requires 0 < |b| && used <= |b| && WrittenAt(b, after, Slot(start + used, |b|), xs)
    requires i < used + |xs| && used + |xs| - i <= |b|
    ensures after[Slot(start + i, |b|)] == (Ring(b, start, used) + xs)[i]
  {
    if i < used {
      KeptElement(b, after, start, used, xs, i);
    } else {
      NewElement(b, after, start, used, xs, i - used);
    }
  }

  /** How many of the oldest elements a write of n drops. */
  function Overflow(used: nat, n: nat, m: nat): nat {
    if used + n > m then used + n - m else 0
  }

  lemma SlotZero(m: nat)
    requires m > 0
    ensures Slot((0 + 0) % TWO64, m) == 0
  {
    DivMod(m, 0, 0);
  }

  lemma FullBuffer<T>(b: seq<T>, after: seq<T>, xs: seq<T>)
    requires |xs| == |b| && |b| > 0 && WrittenAt(b, after, 0, xs)
    ensures after == xs
  {
    forall k | 0 <= k < |xs|
      ensures after[k] == xs[k]
    {
    }
  }

  class CircleBuf<T(0)> {
    const buffer: array<T>
    const maxSize: nat
    var start: nat
    var used: nat

    ghost predicate Valid()
      reads this
    {
      buffer.Length == maxSize && maxSize < MAX_ELEMENTS && start < TWO64 && used <= maxSize
    }

    ghost function Contents(): seq<T>
      requires Valid()
      reads this, buffer
    {
      Ring(buffer[..], start, used)
    }

    constructor (size: nat)
      requires size < MAX_ELEMENTS
      ensures Valid() && maxSize == size && fresh(buffer) && Contents() == [] && start == 0
    {
      buffer := new T[size];
      maxSize := size;
      start, used := 0, 0;
    }

    method Flush()
      requires Valid()
      modifies this
      ensures Valid() && Contents() == [] && start == 0
    {
      start := 0;
      used := 0;
    }

    static lemma NotWrapped(position: nat, m: nat)
      requires position < TWO64
      ensures Keeps(position + 0, m)
    {
    }

    static lemma SumPasses(offset: int, len: nat, used: nat, m: nat)
      requires -(TWO64 / 2) <= offset < TWO64 / 2 && len <= m < MAX_ELEMENTS && (offset + len) % TWO64 <= used <= m
      ensures offset + len == (offset + len) % TWO64
    {
    }

    /**
     The offset is an off_t: a negative one adds up with the length in 64 bits, and passes the test if
     the sum does.  The precondition is that a copy that passes the test stays inside the buffer.
     */
    method Peek(offset: int, len: nat) returns (out: Result<seq<T>>)
      requires Valid() && -(TWO64 / 2) <= offset < TWO64 / 2 && len < TWO64
      requires (offset + len) % TWO64 <= used ==> len <= maxSize
      ensures out == Panic <==> (offset + len) % TWO64 > used
      ensures out.Ok? && len > 0 ==> out.value == Runs(buffer[..], Slot((start + offset) % TWO64, maxSize), len)
      ensures out.Ok? && offset >= 0 ==> offset + len <= used
      ensures out.Ok? && offset >= 0 && (len == 0 || Keeps(start + offset, maxSize)) ==>
                out.value == Contents()[offset..offset + len]
      ensures out.Ok? && offset >= 0 && len > 0 && AllDistinct(buffer[..]) ==>
                (out.value == Contents()[offset..offset + len] <==> Keeps(start + offset, maxSize))
    {
      hide Ring, Runs, Slot, AllDistinct, Keeps;
      if (offset + len) % TWO64 > used {
        return Panic;
      }
      SumPasses(offset, len, used, maxSize);
      if len == 0 {
        if offset >= 0 {
          assert Contents()[offset..offset + len] == [];
        }
        return Ok([]);
      }
      var next := Slot((start + offset) % TWO64, maxSize);
      if offset >= 0 {
        PeekExact(buffer[..], start, used, offset, len);
      }
      var copied := CopyOut(next, len);
      out := Ok(copied);
    }

    /** The copying of peek, in two parts if the end of the buffer is reached. */
    method CopyOut(next: nat, len: nat) returns (out: seq<T>)
      requires next < buffer.Length && len <= buffer.Length
      ensures out == Runs(buffer[..], next, len)
    {
      var toEnd := buffer.Length - next;
      if toEnd < len {
        out := buffer[next..] + buffer[..len - toEnd];
      } else {
        out := buffer[next..next + len];
      }
    }

    /** What is read is right in any case; what is left is, if the new start is at the right place. */
    method Read(len: nat) returns (out: Result<seq<T>>)
      requires Valid() && len < TWO64
      modifies this`start, this`used
      ensures Valid() && (out == Panic <==> len > old(used))
      ensures out == Panic ==> unchanged(this)
      ensures out.Ok? ==> out.value == old(Contents())[..len]
      ensures out.Ok? && (len == old(used) || Keeps(old(start) + len, maxSize)) ==> Contents() == old(Contents())[len..]
      ensures out.Ok? && len < old(used) && AllDistinct(buffer[..]) ==>
                (Contents() == old(Contents())[len..] <==> Keeps(old(start) + len, maxSize))
      ensures out.Ok? ==> start == (old(start) + len) % TWO64 && used == old(used) - len
    {
      hide Ring, Runs, Slot, AllDistinct, Keeps;
      NotWrapped(start, maxSize);
      out := Peek(0, len);
      if out == Panic {
        return;
      }
      if len < used {
        ReadExact(buffer[..], start, used, len);
      }
      used := used - len;
      start := (start + len) % TWO64;
    }

    /** std::copy_n into the buffer. */
    method CopyIn(next: nat, xs: seq<T>)
      requires next + |xs| <= buffer.Length
      modifies buffer
      ensures forall j :: 0 <= j < buffer.Length ==>
                buffer[j] == if next <= j < next + |xs| then xs[j - next] else old(buffer[j])
    {
      for k := 0 to |xs|
        invariant forall j :: 0 <= j < buffer.Length ==>
                    buffer[j] == if next <= j < next + k then xs[j - next] else old(buffer[j])
      {
        buffer[next + k] := xs[k];
      }
    }

    /** Copies xs in from place next, starting over at the front if the end is reached. */
    method CopyAround(next: nat, xs: seq<T>)
      requires next < buffer.Length && |xs| <= buffer.Length
      modifies buffer
      ensures WrittenAt(old(buffer[..]), buffer[..], next, xs)
    {
      var toEnd := buffer.Length - next;
      if toEnd < |xs| {
        CopyIn(next, xs[..toEnd]);
        CopyIn(0, xs[toEnd..]);
      } else {
        CopyIn(next, xs);
      }
    }

    method Write(xs: seq<T>)
      requires Valid() && |xs| < MAX_ELEMENTS && (maxSize > 0 || xs == [])
      modifies this, buffer
      ensures Valid()
      ensures WriteKeeps(old(start), old(used), maxSize, |xs|) ==> Contents() == LastOf(old(Contents()) + xs, maxSize)
      ensures AllDistinct(old(buffer[..])) && NoneIn(xs, old(buffer[..])) ==>
                (Contents() == LastOf(old(Contents()) + xs, maxSize) <==> WriteKeeps(old(start), old(used), maxSize, |xs|))
      ensures used == if old(used) + |xs| > maxSize then maxSize else old(used) + |xs|
      ensures start == if |xs| > maxSize then 0 else (old(start) + Overflow(old(used), |xs|, maxSize)) % TWO64
      ensures xs == [] ==> buffer[..] == old(buffer[..])
      ensures 0 < |xs| <= maxSize ==> WrittenAt(old(buffer[..]), buffer[..], Slot((old(start) + old(used)) % TWO64, maxSize), xs)
      ensures |xs| > maxSize ==> buffer[..] == xs[|xs| - maxSize..]
    {
      hide Ring, Slot, AllDistinct, NoneIn, WrittenAt;
      if xs == [] {
        assert old(Contents()) + xs == old(Contents());
        return;
      }
      var input := xs;
      if |input| > maxSize {
        input := input[|input| - maxSize..];
        Flush();
        LastOfLong(old(Contents()), xs, maxSize);
        SlotZero(maxSize);
      }
      WriteFitting(input);
      if |xs| > maxSize {
        FullBuffer(old(buffer[..]), buffer[..], input);
      }
    }

    /** The rest of write, once the input is no longer than the buffer. */
    method WriteFitting(xs: seq<T>)
      requires Valid() && 0 < |xs| <= maxSize
      modifies this, buffer
      ensures Valid() && used == if old(used) + |xs| > maxSize then maxSize else old(used) + |xs|
      ensures start == (old(start) + Overflow(old(used), |xs|, maxSize)) % TWO64
      ensures WrittenAt(old(buffer[..]), buffer[..], Slot((old(start) + old(used)) % TWO64, maxSize), xs)
      ensures WriteKeeps(old(start), old(used), maxSize, |xs|) ==> Contents() == LastOf(old(Contents()) + xs, maxSize)
      ensures AllDistinct(old(buffer[..])) && NoneIn(xs, old(buffer[..])) ==>
                (Contents() == LastOf(old(Contents()) + xs, maxSize) <==> WriteKeeps(old(start), old(used), maxSize, |xs|))
    {
      hide WrittenAt, Ring, LastOf, Slot, AllDistinct, NoneIn, WriteKeeps;
      var total := used + |xs|;
      var overflow := if total > maxSize then total - maxSize else 0;
      var next := Slot((start + used) % TWO64, maxSize);
      ghost var before := buffer[..];
      CopyAround(next, xs);
      WriteExact(before, buffer[..], start, used, xs, overflow);
      used := used + |xs| - overflow;
      start := (start + overflow) % TWO64;
    }
  }

  lemma WriteStep<T>(b: seq<T>, after: seq<T>, start: nat, used: nat, xs: seq<T>, overflow: nat)
    requires 0 < |b| < TWO64 && used <= |b| && start < TWO64 && |xs| <= |b|
    requires Keeps(start + used, |b|)
    requires WrittenAt(b, after, Slot((start + used) % TWO64, |b|), xs)
    requires overflow == if used + |xs| > |b| then used + |xs| - |b| else 0
    ensures Ring(after, (start + overflow) % TWO64, used + |xs| - overflow) == LastOf(Ring(b, start, used) + xs, |b|)
  {
    PlaceSurvivesWrap(start + used, |b|);
    RingWritten(b, after, start, used, xs, overflow);
    hide WrittenAt, Ring, LastOf, Slot;
    PlaceSurvivesWrap(start + overflow, |b|);
    RingSame(after, start + overflow, (start + overflow) % TWO64, used + |xs| - overflow);
  }

  lemma FullRing<T>(b: seq<T>, after: seq<T>, at: nat, xs: seq<T>)
    requires 0 < |b| == |xs| && WrittenAt(b, after, Slot(at, |b|), xs)
    ensures |after| == |b| && Ring(after, at, |b|) == xs
  {
    RingWritten(b, after, at, 0, xs, 0);
    assert |after| == |b|;
    hide WrittenAt, Slot, Ring;
    assert Ring(b, at, 0) + xs == xs;
  }

  /** A write of a whole buffer replaces everything, wherever it starts. */
  lemma FullWrite<T>(b: seq<T>, after: seq<T>, start: nat, used: nat, xs: seq<T>)
    requires 0 < |b| == |xs| && used <= |b|
    requires WrittenAt(b, after, Slot((start + used) % TWO64, |b|), xs)
    ensures Ring(after, (start + used) % TWO64, |b|) == xs == LastOf(Ring(b, start, used) + xs, |b|)
  {
    FullRing(b, after, (start + used) % TWO64, xs);
    hide WrittenAt, Ring, Slot;
    assert (Ring(b, start, used) + xs)[used..] == xs;
  }

  ghost predicate AllDistinct<T>(b: seq<T>) {
    forall i, j :: 0 <= i < j < |b| ==> b[i] != b[j]
  }

  ghost predicate NoneIn<T>(xs: seq<T>, b: seq<T>) {
    forall j, k :: 0 <= j < |xs| && 0 <= k < |b| ==> xs[j] != b[k]
  }

  /** A shorter write to another place than the end leaves some element of the input out of its place. */
  lemma MisplacedWrite<T>(b: seq<T>, after: seq<T>, end: nat, at: nat, xs: seq<T>) returns (j: nat)
    requires 0 < |xs| < |b| && NoneIn(xs, b) && at != Slot(end, |b|) && WrittenAt(b, after, at, xs)
    ensures j < |xs| && after[Slot(end + j, |b|)] != xs[j]
  {
    var m, e := |b|, Slot(end, |b|);
    var ahead := if at > e then at - e else at - e + m;
    j := if ahead < |xs| then ahead - 1 else |xs| - 1;
    Place(m, end, j);
    var place := Slot(end + j, m);
    assert !(at <= place < at + |xs|) && !(place + m < at + |xs|);
    assert after[place] == b[place];
  }

  /** The contents after a write at the wrong place, when the start has not wrapped: an element of the input is missing. */
  lemma MisplacedEnd<T>(b: seq<T>, after: seq<T>, start: nat, used: nat, xs: seq<T>, overflow: nat, at: nat)
    requires used <= |b| && 0 < |xs| < |b| && NoneIn(xs, b) && at != Slot(start + used, |b|) && WrittenAt(b, after, at, xs)
    requires overflow == if used + |xs| > |b| then used + |xs| - |b| else 0
    ensures Ring(after, start + overflow, used + |xs| - overflow) != LastOf(Ring(b, start, used) + xs, |b|)
  {
    var j := MisplacedWrite(b, after, start + used, at, xs);
    var r, all := Ring(after, start + overflow, used + |xs| - overflow), Ring(b, start, used) + xs;
    assert r[used - overflow + j] == after[Slot(start + used + j, |b|)];
    assert LastOf(all, |b|)[used - overflow + j] == all[used + j] == xs[j];
  }

  /** The contents when start and end have both wrapped: the first element comes from the wrong place. */
  lemma MisplacedStart<T>(b: seq<T>, after: seq<T>, start: nat, used: nat, xs: seq<T>, overflow: nat)
    requires 0 < |b| < TWO64 && used <= |b| && start < TWO64 && 0 < |xs| < |b| && AllDistinct(b)
    requires TWO64 <= start + overflow && TWO64 % |b| != 0
    requires 0 < overflow == used + |xs| - |b|
    requires WrittenAt(b, after, Slot(start + used - TWO64, |b|), xs)
    ensures Ring(after, start + overflow - TWO64, |b|) != LastOf(Ring(b, start, used) + xs, |b|)
  {
    var w := start + overflow - TWO64;
    assert w + (used - overflow) == start + used - TWO64;
    KeptElement(b, after, w, used - overflow, xs, 0);
    PlaceSurvivesWrap(start + overflow, |b|);
    assert |after| == |b|;
    hide WrittenAt, Slot;
    assert Ring(after, w, |b|)[0] == after[Slot(w + 0, |b|)] == b[Slot(w, |b|)];
    assert LastOf(Ring(b, start, used) + xs, |b|)[0] == Ring(b, start, used)[overflow] == b[Slot(start + overflow, |b|)];
  }

  /**
   When a write of n elements leaves the last elements of the old contents and the input: the end has
   not passed stream position 2^64, or the capacity divides 2^64, or nothing of the old contents stays.
   */
  predicate WriteKeeps(start: nat, used: nat, m: nat, n: nat) {
    n == 0 || n >= m || Keeps(start + used, m)
  }

  lemma WriteExact<T>(b: seq<T>, after: seq<T>, start: nat, used: nat, xs: seq<T>, overflow: nat)
    requires 0 < |b| < TWO64 && used <= |b| && start < TWO64 && 0 < |xs| <= |b|
    requires WrittenAt(b, after, Slot((start + used) % TWO64, |b|), xs)
    requires overflow == if used + |xs| > |b| then used + |xs| - |b| else 0
    ensures var right := Ring(after, (start + overflow) % TWO64, used + |xs| - overflow)
                         == LastOf(Ring(b, start, used) + xs, |b|);
            && (WriteKeeps(start, used, |b|, |xs|) ==> right)
            && (AllDistinct(b) && NoneIn(xs, b) ==> (right <==> WriteKeeps(start, used, |b|, |xs|)))
  {
    hide WrittenAt, Ring, LastOf, Slot, AllDistinct, NoneIn, Keeps;
    if Keeps(start + used, |b|) {
      WriteStep(b, after, start, used, xs, overflow);
    } else if |xs| == |b| {
      FullWrite(b, after, start, used, xs);
    } else if AllDistinct(b) && NoneIn(xs, b) {
      WriteFails(b, after, start, used, xs, overflow);
    }
  }

  lemma Wrapped(x: nat)
    requires x < 2 * TWO64
    ensures x % TWO64 == if x < TWO64 then x else x - TWO64
  {
  }

  lemma WriteFails<T>(b: seq<T>, after: seq<T>, start: nat, used: nat, xs: seq<T>, overflow: nat)
    requires 0 < |b| < TWO64 && used <= |b| && start < TWO64 && 0 < |xs| < |b| && AllDistinct(b) && NoneIn(xs, b)
    requires !Keeps(start + used, |b|) && WrittenAt(b, after, Slot((start + used) % TWO64, |b|), xs)
    requires overflow == if used + |xs| > |b| then used + |xs| - |b| else 0
    ensures Ring(after, (start + overflow) % TWO64, used + |xs| - overflow) != LastOf(Ring(b, start, used) + xs, |b|)
  {
    hide WrittenAt, Ring, LastOf, Slot, AllDistinct, NoneIn;
    PlaceSurvivesWrap(start + used, |b|);
    Wrapped(start + used);
    Wrapped(start + overflow);
    if start + overflow < TWO64 {
      MisplacedEnd(b, after, start, used, xs, overflow, Slot((start + used) % TWO64, |b|));
    } else {
      MisplacedStart(b, after, start, used, xs, overflow);
    }
  }

  lemma LastOfLong<T>(s: seq<T>, xs: seq<T>, n: nat)
    requires |xs| > n
    ensures LastOf([] + xs[|xs| - n..], n) == LastOf(s + xs, n)
  {
    assert [] + xs[|xs| - n..] == xs[|xs| - n..] == (s + xs)[|s| + |xs| - n..];
  }

  lemma RingDropped<T>(b: seq<T>, start: nat, used: nat, len: nat, start': nat)
    requires 0 < |b| && len <= used <= |b| && Slot(start', |b|) == Slot(start + len, |b|)
    ensures Ring(b, start', used - len) == Ring(b, start, used)[len..]
  {
    var r, all := Ring(b, start', used - len), Ring(b, start, used);
    forall i | 0 <= i < used - len
      ensures r[i] == all[len + i]
    {
      SamePlace(|b|, start', start + len, i);
    }
  }

  class Fifo<T(0)> {
    const buf: CircleBuf<T>

    constructor (size: nat)
      requires size < MAX_ELEMENTS
      ensures buf.Valid() && buf.maxSize == size && fresh(buf) && fresh(buf.buffer) && buf.Contents() == [] && buf.start == 0
    {
      buf := new CircleBuf<T>(size);
    }

    /** Unlike the circular buffer, the FIFO refuses what does not fit. */
    method Write(xs: seq<T>) returns (r: Result<()>)
      requires buf.Valid() && |xs| < MAX_ELEMENTS
      modifies buf, buf.buffer
      ensures buf.Valid() && (r == Panic <==> old(buf.used) + |xs| > buf.maxSize)
      ensures r == Panic ==> unchanged(buf) && unchanged(buf.buffer)
      ensures r.Ok? ==> buf.used == old(buf.used) + |xs| && buf.start == old(buf.start)
      ensures r.Ok? && WriteKeeps(old(buf.start), old(buf.used), buf.maxSize, |xs|) ==>
                buf.Contents() == old(buf.Contents()) + xs
      ensures r.Ok? && AllDistinct(old(buf.buffer[..])) && NoneIn(xs, old(buf.buffer[..])) ==>
                (buf.Contents() == old(buf.Contents()) + xs <==>
                 WriteKeeps(old(buf.start), old(buf.used), buf.maxSize, |xs|))
    {
      if buf.used + |xs| > buf.maxSize {
        return Panic;
      }
      buf.Write(xs);
      r := Ok(());
    }
  }

  // Checkpoints

  method ArrayParamOut<T(0)>(param: CircleBuf<T>) returns (saved: Result<seq<T>>)
    requires param.Valid()
    ensures saved == Ok(param.Contents())
  {
    saved := param.Peek(0, param.used);
    assert param.Contents()[0..param.used] == param.Contents();
  }

  method ArrayParamIn<T(0)>(saved: seq<T>, param: CircleBuf<T>)
    requires param.Valid() && |saved| < MAX_ELEMENTS && (param.maxSize > 0 || saved == [])
    modifies param, param.buffer
    ensures param.Valid() && param.Contents() == LastOf(saved, param.maxSize) && param.start == 0
  {
    param.Flush();
    assert [] + saved == saved;
    param.Write(saved);
  }

  /** A checkpoint taken from one buffer and restored into another of at least its size carries the contents over. */
  method SaveAndRestore<T(0)>(from: CircleBuf<T>, to: CircleBuf<T>)
    requires from.Valid() && to.Valid() && to.maxSize >= from.used
    modifies to, to.buffer
    ensures to.Valid() && to.Contents() == old(from.Contents())
  {
    var saved := ArrayParamOut(from);
    ArrayParamIn(saved.value, to);
  }

  // The wrap of size_t at 2^64.

  lemma OtherRuns<T>(b: seq<T>, x: nat, y: nat, len: nat)
    requires 0 < len <= |b| && x < |b| && y < |b| && x != y && AllDistinct(b)
    ensures Runs(b, x, len) != Runs(b, y, len)
  {
    assert Runs(b, x, len)[0] == b[x] && Runs(b, y, len)[0] == b[y];
  }

  lemma PeekExact<T>(b: seq<T>, start: nat, used: nat, offset: nat, len: nat)
    requires 0 < |b| && used <= |b| < TWO64 && start < TWO64 && 0 < len && offset + len <= used
    ensures var right := Runs(b, Slot((start + offset) % TWO64, |b|), len) == Ring(b, start, used)[offset..offset + len];
            && (Keeps(start + offset, |b|) ==> right)
            && (AllDistinct(b) ==> (right <==> Keeps(start + offset, |b|)))
  {
    hide Slot, Ring, Runs, Keeps, AllDistinct;
    var at := (start + offset) % TWO64;
    PlaceSurvivesWrap(start + offset, |b|);
    RingIsRuns(b, start, used, offset, len);
    if AllDistinct(b) && Slot(at, |b|) != Slot(start + offset, |b|) {
      OtherRuns(b, Slot(at, |b|), Slot(start + offset, |b|), len);
    }
  }

  lemma ReadExact<T>(b: seq<T>, start: nat, used: nat, len: nat)
    requires 0 < |b| < TWO64 && len < used <= |b| && start < TWO64
    ensures var right := Ring(b, (start + len) % TWO64, used - len) == Ring(b, start, used)[len..];
            && (Keeps(start + len, |b|) ==> right)
            && (AllDistinct(b) ==> (right <==> Keeps(start + len, |b|)))
  {
    PlaceSurvivesWrap(start + len, |b|);
    if Keeps(start + len, |b|) {
      RingDropped(b, start, used, len, (start + len) % TWO64);
    } else if AllDistinct(b) {
      RingDroppedExact(b, start, used, len, (start + len) % TWO64);
    }
  }

  /** With distinct elements, moving on to start' drops the first len of them only if start' is at the right place. */
  lemma RingDroppedExact<T>(b: seq<T>, start: nat, used: nat, len: nat, start': nat)
    requires 0 < |b| && len < used <= |b| && AllDistinct(b)
    ensures Ring(b, start', used - len) == Ring(b, start, used)[len..] <==> Slot(start', |b|) == Slot(start + len, |b|)
  {
    if Slot(start', |b|) == Slot(start + len, |b|) {
      RingDropped(b, start, used, len, start');
    } else {
      assert Ring(b, start', used - len)[0] == b[Slot(start' + 0, |b|)];
      assert Ring(b, start, used)[len..][0] == b[Slot(start + len, |b|)];
    }
  }

  /** A buffer of three that holds [7] at the last stream position: writing 8 leaves [8, 1] instead of [7, 8]. */
  lemma WrapOverwrites()
    ensures Ring([7, 1, 2], TWO64 - 1, 1) == [7]
    ensures WrittenAt([7, 1, 2], [8, 1, 2], Slot((TWO64 - 1 + 1) % TWO64, 3), [8])
    ensures Ring([8, 1, 2], TWO64 - 1, 2) == [8, 1] != LastOf([7] + [8], 3)
  {
    assert Slot(TWO64 - 1 + 0, 3) == 0 && Slot(TWO64 - 1 + 1, 3) == 1 && Slot(0, 3) == 0;
    var b, after := [7, 1, 2], [8, 1, 2];
    assert Ring(b, TWO64 - 1, 1)[0] == b[0];
    assert Ring(after, TWO64 - 1, 2)[0] == after[0] && Ring(after, TWO64 - 1, 2)[1] == after[1];
  }

  /** Why the input must be foreign to the buffer for the converse: a misplaced write can find its element already there. */
  lemma StaleElementFits()
    ensures var b, after := [0, 1, 2, 3, 4, 5, 6], [2, 1, 2, 3, 4, 5, 6];
            && AllDistinct(b) && !WriteKeeps(TWO64 - 1, 1, 7, 1)
            && WrittenAt(b, after, Slot((TWO64 - 1 + 1) % TWO64, 7), [2])
            && Ring(after, TWO64 - 1, 2) == LastOf(Ring(b, TWO64 - 1, 1) + [2], 7)
  {
    var b, after := [0, 1, 2, 3, 4, 5, 6], [2, 1, 2, 3, 4, 5, 6];
    assert Slot(TWO64 - 1 + 0, 7) == 1 && Slot(TWO64 - 1 + 1, 7) == 2 && Slot(0, 7) == 0;
    assert Ring(b, TWO64 - 1, 1)[0] == b[1];
    assert Ring(after, TWO64 - 1, 2)[0] == after[1] && Ring(after, TWO64 - 1, 2)[1] == after[2];
  }
}
