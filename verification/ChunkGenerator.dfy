/** The aligned decomposition of a memory region of base/chunk_generator.hh. */
module ChunkGenerators {
  import opened Arith
  import opened Words

  const WIDTH := 64

  function Min(a: nat, b: nat): nat {
    if a < b then a else b
  }

  ghost predicate IsPowerOf2(n: nat) {
    exists k: nat :: k < WIDTH && n == Pow2(k)
  }

  /** roundUp of base/intmath.hh: (val + mask) & ~mask. */
  function RoundUp(val: nat, align: nat): nat
    requires align > 0
  {
    Val(And(Bits(U64(val + align - 1), WIDTH), Not(Bits(align - 1, WIDTH))))
  }

  lemma ClearedIs(w: Word, k: nat)
    requires k <= |w|
    ensures And(w, Not(Mask(k, |w|))) == Zeros(k) + w[k..]
  {
  }

  /** Clearing the low bits takes off the remainder. */
  lemma ClearLow(x: nat, k: nat)
    requires x < TWO64 && k < WIDTH
    ensures Val(And(Bits(x, WIDTH), Not(Bits(Pow2(k) - 1, WIDTH)))) == x - x % Pow2(k)
  {
    hide Val, Bits, Pow2;
    var w := Bits(x, WIDTH);
    LowOnes(k, WIDTH);
    Pow2At64(WIDTH);
    ValOfBits(x, WIDTH);
    ClearedIs(w, k);
    assert w == w[..k] + w[k..];
    ValAppend(w[..k], w[k..]);
    ValAppend(Zeros(k), w[k..]);
    ValZeros(k);
    ValBound(w[..k]);
    DivMod(Pow2(k), Val(w[k..]), Val(w[..k]));
  }

  /** The fields of a generator. */
  datatype Gen = Gen(curAddr: nat, nextAddr: nat, curSize: nat, nextSize: nat, sizeLeft: nat)

  /** The start of the next chunk, even if startAddr is itself aligned. */
  function NextChunkStart(startAddr: nat, chunkSize: nat): nat
    requires chunkSize > 0
  {
    var up := RoundUp(startAddr, chunkSize);
    if startAddr == up then U64(up + chunkSize) else up
  }

  /** The generator whose first chunk ends at nextAddr. */
  function StartWith(startAddr: nat, totalSize: nat, chunkSize: nat, nextAddr: nat): Gen {
    var curSize := U64(nextAddr - startAddr);
    var sizeLeft := U64(totalSize - curSize);
    Gen(startAddr, nextAddr, curSize, Min(sizeLeft, chunkSize), sizeLeft)
  }

  function Start(startAddr: nat, totalSize: nat, chunkSize: nat): Gen {
    var end := U64(startAddr + totalSize);
    StartWith(startAddr, totalSize, chunkSize,
              if chunkSize == 0 then end else Min(NextChunkStart(startAddr, chunkSize), end))
  }

  function Advance(g: Gen, chunkSize: nat): Gen {
    if g.sizeLeft == 0 then g.(curSize := 0)
    else
      var left := U64(g.sizeLeft - g.nextSize);
      Gen(g.nextAddr, U64(g.nextAddr + g.nextSize), g.nextSize, Min(left, chunkSize), left)
  }

  datatype Chunk = Chunk(addr: nat, size: nat)

  /** What the documented loop visits: for (gen; !gen.done(); gen.next()). */
  function Visited(g: Gen, chunkSize: nat): seq<Chunk>
    requires g.nextSize == Min(g.sizeLeft, chunkSize) && g.sizeLeft < TWO64
    decreases g.sizeLeft, g.curSize
  {
    if g.curSize == 0 then []
    else [Chunk(g.curAddr, g.curSize)] + Visited(Advance(g, chunkSize), chunkSize)
  }

  class ChunkGenerator {
    var curAddr: nat
    var nextAddr: nat
    var curSize: nat
    var nextSize: nat
    var sizeLeft: nat
    const startAddr: nat
    const chunkSize: nat

    function State(): Gen
      reads this
    {
      Gen(curAddr, nextAddr, curSize, nextSize, sizeLeft)
    }

    ghost predicate Valid()
      reads this
    {
      nextSize == Min(sizeLeft, chunkSize) && sizeLeft < TWO64
    }

    constructor (start: nat, totalSize: nat, chunk: nat)
      requires start < TWO64 && totalSize < TWO64 && (chunk == 0 || IsPowerOf2(chunk))
      ensures Valid() && State() == Start(start, totalSize, chunk) && chunkSize == chunk
    {
      startAddr, chunkSize := start, chunk;
      curAddr := start;
      var next: nat := U64(start + totalSize);
      if chunk != 0 {
        next := Min(NextChunkStart(start, chunk), next);
      }
      nextAddr := next;
      var size: nat := U64(next - start);
      curSize := size;
      var left: nat := U64(totalSize - size);
      sizeLeft := left;
      nextSize := Min(left, chunk);
    }

    predicate Done()
      reads this
    {
      curSize == 0
    }

    predicate Last()
      reads this
    {
      sizeLeft == 0
    }

    method Next() returns (more: bool)
      requires Valid()
      modifies this
      ensures Valid() && State() == Advance(old(State()), chunkSize) && more == !old(Last())
      ensures chunkSize > 0 || old(Last()) ==> (more <==> !Done())
    {
      if Last() {
        curSize := 0;
        return false;
      }
      curAddr := nextAddr;
      curSize := nextSize;
      sizeLeft := U64(sizeLeft - curSize);
      nextAddr := U64(nextAddr + curSize);
      nextSize := Min(sizeLeft, chunkSize);
      return true;
    }
  }

  lemma VisitedStep(chunks: seq<Chunk>, g: Gen, p: nat)
    requires g.nextSize == Min(g.sizeLeft, p) && g.sizeLeft < TWO64 && g.curSize > 0
    ensures chunks + Visited(g, p) == chunks + [Chunk(g.curAddr, g.curSize)] + Visited(Advance(g, p), p)
  {
  }

  lemma AdvanceDecreases(g: Gen, p: nat)
    requires g.nextSize == Min(g.sizeLeft, p) && g.sizeLeft < TWO64 && g.curSize > 0
    ensures Advance(g, p).sizeLeft < g.sizeLeft || (Advance(g, p).sizeLeft == g.sizeLeft && Advance(g, p).curSize < g.curSize)
  {
    if g.sizeLeft > 0 {
      assert U64(g.sizeLeft - g.nextSize) == g.sizeLeft - g.nextSize;
    }
  }

  /** last() holds exactly if no chunk is visited after the current one. */
  lemma LastIsLast(g: Gen, p: nat)
    requires g.nextSize == Min(g.sizeLeft, p) && g.sizeLeft < TWO64 && g.curSize > 0 && (p > 0 || g.sizeLeft == 0)
    ensures g.sizeLeft == 0 <==> |Visited(g, p)| == 1
  {
    var next := Advance(g, p);
    if g.sizeLeft > 0 {
      assert Visited(next, p)[0] == Chunk(next.curAddr, next.curSize);
    }
  }

  /** Without a chunk size nothing is left after the first chunk, from the start. */
  lemma UnchunkedIsLast(start: nat, total: nat)
    requires start < TWO64 && total < TWO64
    ensures Start(start, total, 0).sizeLeft == 0
  {
  }

  lemma VisitedEnd(g: Gen, p: nat)
    requires g.nextSize == Min(g.sizeLeft, p) && g.sizeLeft < TWO64 && g.curSize == 0
    ensures Visited(g, p) == []
  {
  }

  /** The documented loop, on a generator that is already set up. */
  method Drain(gen: ChunkGenerator) returns (chunks: seq<Chunk>)
    requires gen.Valid()
    modifies gen
    ensures chunks == old(Visited(gen.State(), gen.chunkSize))
  {
    hide Visited, Advance;
    chunks := [];
    ghost var all := Visited(gen.State(), gen.chunkSize);
    while !gen.Done()
      invariant gen.Valid()
      invariant chunks + Visited(gen.State(), gen.chunkSize) == all
      decreases gen.sizeLeft, gen.curSize
    {
      VisitedStep(chunks, gen.State(), gen.chunkSize);
      AdvanceDecreases(gen.State(), gen.chunkSize);
      chunks := chunks + [Chunk(gen.curAddr, gen.curSize)];
      var more := gen.Next();
    }
    VisitedEnd(gen.State(), gen.chunkSize);
  }

  method VisitAll(start: nat, totalSize: nat, chunk: nat) returns (chunks: seq<Chunk>)
    requires start < TWO64 && totalSize < TWO64 && (chunk == 0 || IsPowerOf2(chunk))
    ensures chunks == Visited(Start(start, totalSize, chunk), chunk)
  {
    var gen := new ChunkGenerator(start, totalSize, chunk);
    hide Visited, Start;
    chunks := Drain(gen);
  }

  // What the chunks are for.

  /** All bytes of the chunk are in one aligned block. */
  predicate InOneBlock(c: Chunk, chunkSize: nat) {
    chunkSize == 0 || c.addr % chunkSize + c.size <= chunkSize
  }

  /** Non-empty chunks, one after the other, that make up [lo, hi) and each stay inside a block. */
  predicate Tiles(chunks: seq<Chunk>, lo: nat, hi: nat, chunkSize: nat) {
    if chunks == [] then lo == hi
    else
      && chunks[0].addr == lo && chunks[0].size > 0 && lo + chunks[0].size <= hi && InOneBlock(chunks[0], chunkSize)
      && Tiles(chunks[1..], lo + chunks[0].size, hi, chunkSize)
  }

  /** The first block boundary above an address. */
  function Boundary(addr: nat, p: nat): nat
    requires p > 0
  {
    addr - addr % p + p
  }

  lemma RemainderOf64(k: nat)
    requires k < WIDTH
    ensures Pow2(k) < TWO64 && TWO64 % Pow2(k) == 0
  {
    Pow2At64(WIDTH);
    Pow2Add(k, WIDTH - k);
    Pow2Above1(WIDTH - k);
    Apart(Pow2(k), 1, Pow2(WIDTH - k));
    DivMod(Pow2(k), Pow2(WIDTH - k), 0);
  }

  lemma Pow2Above1(n: nat)
    requires n > 0
    ensures Pow2(n) > 1
  {
  }

  lemma RoundUpAligns(start: nat, k: nat)
    requires k < WIDTH
    ensures RoundUp(start, Pow2(k)) == U64(start + Pow2(k) - 1) - U64(start + Pow2(k) - 1) % Pow2(k)
  {
    hide Val, Bits, And, Not, Pow2;
    ClearLow(U64(start + Pow2(k) - 1), k);
  }

  /** NextChunkStart is the boundary, reduced to 64 bits. */
  lemma NextIsBoundary(start: nat, k: nat)
    requires start < TWO64 && k < WIDTH
    ensures NextChunkStart(start, Pow2(k)) == U64(Boundary(start, Pow2(k))) && Boundary(start, Pow2(k)) <= TWO64
  {
    hide RoundUp, Pow2;
    RemainderOf64(k);
    RoundUpAligns(start, k);
    BoundaryArith(start, Pow2(k));
  }

  function AlignUp(start: nat, p: nat): int
    requires p > 0
  {
    var y := U64(start + p - 1);
    y - y % p
  }

  lemma BoundaryArith(start: nat, p: nat)
    requires 0 < p < TWO64 && TWO64 % p == 0 && start < TWO64
    ensures Boundary(start, p) <= TWO64
    ensures U64(Boundary(start, p)) == if start == AlignUp(start, p) then U64(start + p) else AlignUp(start, p)
  {
    var q, r := Quotient(p, start);
    var t, zero := Quotient(p, TWO64);
    if q >= t {
      MulMonotone(p, t, q);
    }
    MulMonotone(p, q + 1, t);
    Apart(p, q, q + 1);
    assert p * (q + 1) == p * q + p == Boundary(start, p);
    if r == 0 {
      FromAligned(start, p, q);
    } else if q + 1 < t {
      MulMonotone(p, q + 2, t);
      FromInside(start, p, q, r);
    } else {
      FromLastBlock(start, p, r);
    }
  }

  lemma FromAligned(start: nat, p: nat, q: nat)
    requires p > 0 && start == p * q && start + p <= TWO64
    ensures AlignUp(start, p) == start
  {
    DivMod(p, q, p - 1);
  }

  lemma FromInside(start: nat, p: nat, q: nat, r: nat)
    requires 0 < r < p && start == p * q + r && p * (q + 2) <= TWO64
    ensures AlignUp(start, p) == p * (q + 1)
  {
    assert p * (q + 1) == p * q + p && p * (q + 2) == p * q + 2 * p;
    DivMod(p, q + 1, r - 1);
  }

  lemma FromLastBlock(start: nat, p: nat, r: nat)
    requires 0 < r < p < TWO64 && start == TWO64 - p + r
    ensures AlignUp(start, p) == 0
  {
    assert U64(start + p - 1) == r - 1;
    DivMod(p, 0, r - 1);
  }

  /** Between chunks of a region that ends at hi: what is left starts on a block boundary. */
  ghost predicate Steady(g: Gen, hi: nat, p: nat) {
    && g.nextAddr == g.curAddr + g.curSize && g.nextAddr + g.sizeLeft == hi < TWO64
    && p > 0 && g.nextSize == Min(g.sizeLeft, p)
    && (g.sizeLeft > 0 ==> g.curSize > 0 && g.nextAddr % p == 0)
    && InOneBlock(Chunk(g.curAddr, g.curSize), p)
  }

  lemma SteadyNext(g: Gen, hi: nat, p: nat)
    requires Steady(g, hi, p) && g.sizeLeft > 0
    ensures Steady(Advance(g, p), hi, p)
    ensures Advance(g, p).curAddr == g.nextAddr && Advance(g, p).sizeLeft < g.sizeLeft
  {
    ModAdd(p, g.nextAddr, p);
    ModSmall(p, p);
    assert U64(g.sizeLeft - g.nextSize) == g.sizeLeft - g.nextSize;
    assert U64(g.nextAddr + g.nextSize) == g.nextAddr + g.nextSize;
  }

  lemma {:induction false} SteadyTiles(g: Gen, hi: nat, p: nat)
    requires Steady(g, hi, p)
    ensures Tiles(Visited(g, p), g.curAddr, hi, p)
    decreases g.sizeLeft, g.curSize
  {
    if g.curSize > 0 {
      var next := Advance(g, p);
      if g.sizeLeft > 0 {
        SteadyNext(g, hi, p);
        SteadyTiles(next, hi, p);
      }
      assert Visited(g, p)[1..] == Visited(next, p);
    }
  }

  lemma BoundaryIsMultiple(start: nat, p: nat)
    requires p > 0
    ensures Boundary(start, p) % p == 0 && start < Boundary(start, p)
  {
    var q, r := Quotient(p, start);
    assert p * (q + 1) == p * q + p;
    DivMod(p, q + 1, 0);
  }

  /** Without a chunk size the region is one chunk. */
  lemma UnchunkedTiles(start: nat, total: nat)
    requires start < TWO64 && total < TWO64 && start + total <= TWO64
    ensures Tiles(Visited(Start(start, total, 0), 0), start, start + total, 0)
  {
    var g := Start(start, total, 0);
    assert g.curSize == total && g.sizeLeft == 0;
    OneChunk(g, 0);
  }

  lemma OneChunk(g: Gen, p: nat)
    requires g.sizeLeft == 0 && g.nextSize == Min(0, p)
    ensures Visited(g, p) == if g.curSize == 0 then [] else [Chunk(g.curAddr, g.curSize)]
  {
    assert Visited(g.(curSize := 0), p) == [];
  }

  lemma VisitedFirst(g: Gen, p: nat)
    requires g.nextSize == Min(g.sizeLeft, p) && g.sizeLeft < TWO64 && g.curSize > 0
    ensures Visited(g, p) != [] && Visited(g, p)[0] == Chunk(g.curAddr, g.curSize)
  {
  }

  lemma StartInside(start: nat, total: nat, p: nat, boundary: nat)
    requires 0 < p && start + total < TWO64 && start < boundary && boundary % p == 0 && boundary <= start - start % p + p
    ensures Steady(StartWith(start, total, p, Min(boundary, start + total)), start + total, p)
  {
    var next := Min(boundary, start + total);
    assert U64(next - start) == next - start;
    assert U64(total - (next - start)) == start + total - next;
  }

  /** When the region or the block reaches the top of the address space, the first chunk runs up to there. */
  lemma StartAtTop(start: nat, total: nat, p: nat)
    requires 0 < start < TWO64 && total < TWO64 && start + total <= TWO64
    ensures StartWith(start, total, p, 0).curSize == TWO64 - start
    ensures start + total == TWO64 ==> StartWith(start, total, p, 0).sizeLeft == 0
  {
    assert U64(0 - start) == TWO64 - start;
  }

  lemma TopTiles(start: nat, total: nat, p: nat)
    requires 0 < start < TWO64 && total < TWO64 && start + total <= TWO64 && p > 0
    ensures Tiles(Visited(StartWith(start, total, p, 0), p), start, start + total, p)
            <==> start + total == TWO64 && start % p + total <= p
  {
    var g := StartWith(start, total, p, 0);
    StartAtTop(start, total, p);
    VisitedFirst(g, p);
    if start + total == TWO64 {
      OneChunk(g, p);
      assert Tiles([], TWO64, TWO64, p);
    }
  }

  lemma MinAtTop(b: nat, e: nat)
    requires b <= TWO64 && e <= TWO64
    ensures Min(U64(b), U64(e)) == if b < TWO64 && e < TWO64 then Min(b, e) else 0
  {
  }

  lemma StartIs(start: nat, total: nat, k: nat)
    requires start < TWO64 && k < WIDTH && start + total <= TWO64
    ensures var b := Boundary(start, Pow2(k));
            Start(start, total, Pow2(k)) ==
            StartWith(start, total, Pow2(k), if b < TWO64 && start + total < TWO64 then Min(b, start + total) else 0)
  {
    NextIsBoundary(start, k);
    MinAtTop(Boundary(start, Pow2(k)), start + total);
  }

  lemma BoundaryIs(start: nat, p: nat)
    requires p > 0
    ensures Boundary(start, p) == start - start % p + p && start % p < p
  {
  }

  lemma StartsAtStart(start: nat, total: nat, p: nat, next: nat)
    ensures StartWith(start, total, p, next).curAddr == start
  {
  }

  /**
   The chunks tile the region exactly if the region and the block of its first byte both stop short of
   the top of the address space, or both reach it.
   */
  lemma TilesExactly(start: nat, total: nat, k: nat)
    requires start < TWO64 && total < TWO64 && k < WIDTH && start + total <= TWO64
    ensures Tiles(Visited(Start(start, total, Pow2(k)), Pow2(k)), start, start + total, Pow2(k))
            <==> (start + total == TWO64 <==> Boundary(start, Pow2(k)) == TWO64)
  {
    hide *;
    var p, b := Pow2(k), Boundary(start, Pow2(k));
    StartIs(start, total, k);
    NextIsBoundary(start, k);
    BoundaryIsMultiple(start, p);
    RemainderOf64(k);
    BoundaryIs(start, p);
    if start + total < TWO64 && b < TWO64 {
      StartInside(start, total, p, b);
      SteadyTiles(Start(start, total, p), start + total, p);
      StartsAtStart(start, total, p, Min(b, start + total));
    } else {
      TopTiles(start, total, p);
    }
  }

  /** A region that starts in the last block and stops short of the top: its first chunk runs on to the top. */
  lemma LastBlockOverruns(start: nat, total: nat, k: nat)
    requires 0 < start < TWO64 && k < WIDTH && start + total < TWO64 && Boundary(start, Pow2(k)) == TWO64
    ensures var chunks := Visited(Start(start, total, Pow2(k)), Pow2(k));
            && chunks != [] && chunks[0] == Chunk(start, TWO64 - start)
            && !Tiles(chunks, start, start + total, Pow2(k))
  {
    StartIs(start, total, k);
    StartAtTop(start, total, Pow2(k));
    VisitedFirst(StartWith(start, total, Pow2(k), 0), Pow2(k));
  }

  /** Four bytes at 2^64 - 8 in chunks of 16: the first chunk has eight. */
  lemma SmallAccessOverruns(start: nat, k: nat)
    requires start == TWO64 - 8 && k == 4
    ensures Pow2(k) == 16
    ensures var chunks := Visited(Start(start, 4, Pow2(k)), Pow2(k));
            chunks != [] && chunks[0] == Chunk(start, 8) && !Tiles(chunks, start, start + 4, Pow2(k))
  {
    assert Pow2(4) == 16;
    assert Boundary(start, 16) == TWO64;
    hide Visited, Start, Tiles, Boundary;
    LastBlockOverruns(start, 4, k);
  }
}
