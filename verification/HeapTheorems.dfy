/** What holds of the heap after any sequence of `kmalloc` and `kfree` calls. */
module HeapTheorems {
  import opened Bytes
  import opened Blocks
  import opened HeapModel
  import opened HeapRuns

  /** A call from outside. `Kfree` of anything but a live pointer stands for NULL and for
      pointers that `is_valid_pointer` rejects, on which the code does nothing. */
  datatype HeapCall = Kmalloc(n: word) | Kfree(p: int)

  function Apply(h: Heap, c: HeapCall): Heap {
    match c
    case Kmalloc(n) => Alloc(h, n).0
    case Kfree(p) => if p in h.Live() then Free(h, p) else h
  }

  /** The heap after a sequence of calls. */
  function Run(h: Heap, cs: seq<HeapCall>): Heap
    decreases |cs|
  {
    if |cs| == 0 then h else Run(Apply(h, cs[0]), cs[1..])
  }

  /** Any interleaving keeps the invariant: tiling, statistics, at most one adjacent pair. */
  lemma {:induction false} RunKeepsInv(h: Heap, cs: seq<HeapCall>)
    requires Inv(h)
    ensures Inv(Run(h, cs)) && Run(h, cs).lo == h.lo && Run(h, cs).hi == h.hi
    decreases |cs|
  {
    hide Tiles, Pass, Pairs, UsedBlocks, Extents, Footprint, Carve, BestFit, Align, GrantLaw;
    if |cs| > 0 {
      match cs[0]
      case Kmalloc(n) =>
        AllocKeepsInv(h, n);
        AllocMeaning(h, n);
      case Kfree(p) =>
        if p in h.Live() {
          FreeKeepsInv(h, p);
          FreeMeaning(h, p);
        }
    }
    if |cs| > 0 {
      RunKeepsInv(Apply(h, cs[0]), cs[1..]);
    }
  }

  /** The statistics in every reachable heap: what is not allocated is exactly the free
      bytes, so the subtraction in `mm_print_stats` cannot go below zero, and the difference
      of the call counters is the number of live blocks. */
  lemma FreeBytesFromStats(h: Heap)
    requires Inv(h)
    ensures h.hi - h.lo - h.inUse == FreeBytes(h.blocks) >= 0
    ensures h.inUse == UsedBytes(h.blocks) >= HEADER * h.UsedCount()
    ensures (h.allocs - h.frees) % ADDRESS_SPACE == h.UsedCount()
    ensures |h.blocks| <= 2 * h.UsedCount() + 2
  {
    FreeAndUsed(h.blocks, h.lo, h.hi);
    UsedCountBound(h.blocks, h.lo, h.hi);
    FreeCountBound(h.blocks);
  }

  lemma Scale(c: nat, k: nat, s: nat)
    requires c <= k
    ensures c * s <= k * s
  {
  }

  lemma SomeLive(us: seq<Block>)
    requires |us| > 0
    ensures Extents(us) != map[]
  {
    assert us[0].Ptr() in Extents(us);
  }

  /** The success guarantee: NULL for a nonzero request means that little is free. */
  lemma NullMeansFull(h: Heap, n: word)
    requires Inv(h) && n > 0 && Alloc(h, n).1 == 0
    ensures h.hi - h.lo - h.inUse <= (h.UsedCount() + 2) * (Align(n) + 8)
  {
    hide Tiles, UsedBlocks, Footprint, FreeCount, FreeBytes, Pairs, Alloc, Align, GrantLaw;
    var s := Align(n);
    AllocMeaning(h, n);
    Ordered(h.blocks, h.lo, h.hi);
    forall i | 0 <= i < |h.blocks| && h.blocks[i].free
      ensures h.blocks[i].size <= s - ALIGNMENT
    {
      assert h.blocks[i] in h.blocks;
      assert !Fits(h.blocks[i], s);
    }
    FreeBytesBound(h.blocks, s - ALIGNMENT);
    FreeBytesFromStats(h);
    FreeCountBound(h.blocks);
    Scale(FreeCount(h.blocks), h.UsedCount() + 2, s + 8);
  }

  /** After any run that has given everything back, at most two blocks cover the whole heap
      and every request below half of it is served. */
  lemma EmptiedHeap(lo: int, hi: int, cs: seq<HeapCall>, n: word)
    requires HEADER <= lo && lo + HEADER < hi < ADDRESS_SPACE && lo % ALIGNMENT == 0 && hi % ALIGNMENT == 0
    requires Run(Initial(lo, hi), cs).Live() == map[]
    ensures var h := Run(Initial(lo, hi), cs);
      && 1 <= |h.blocks| <= 2 && h.inUse == 0
      && Tiles(h.blocks, lo, hi) && (forall b :: b in h.blocks ==> b.free)
      && (0 < n && 2 * (Align(n) + 8) < hi - lo ==> Alloc(h, n).1 != 0)
  {
    InitialInv(lo, hi);
    RunKeepsInv(Initial(lo, hi), cs);
    var h := Run(Initial(lo, hi), cs);
    if |UsedBlocks(h.blocks)| > 0 { SomeLive(UsedBlocks(h.blocks)); }
    FreeBytesFromStats(h);
    forall b | b in h.blocks
      ensures b.free
    {
      var i :| 0 <= i < |h.blocks| && h.blocks[i] == b;
      if !b.free { UsedIsLive(h.blocks, lo, hi, i); }
    }
    if n > 0 && Alloc(h, n).1 == 0 {
      NullMeansFull(h, n);
    }
  }

  // A run on which the textbook invariant fails, step by step, on any heap with some room.

  function OneUsed(lo: int, hi: int): Heap {
    Heap(lo, hi, [Block(lo, 8, false), Block(lo + 24, hi - lo - 40, true)], 24, 1, 0)
  }

  function TwoUsed(lo: int, hi: int): Heap {
    Heap(lo, hi, [Block(lo, 8, false), Block(lo + 24, 8, false), Block(lo + 48, hi - lo - 64, true)], 48, 2, 0)
  }

  function FirstFreed(lo: int, hi: int): Heap {
    Heap(lo, hi, [Block(lo, 8, true), Block(lo + 24, 8, false), Block(lo + 48, hi - lo - 64, true)], 24, 2, 1)
  }

  function BothFreed(lo: int, hi: int): Heap {
    Heap(lo, hi, [Block(lo, 32, true), Block(lo + 48, hi - lo - 64, true)], 0, 2, 2)
  }

  lemma FirstGrant(lo: int, hi: int)
    requires lo + 56 <= hi
    ensures Apply(Initial(lo, hi), Kmalloc(8)) == OneUsed(lo, hi)
  {
    var bs := Initial(lo, hi).blocks;
    assert BestFit(bs, 8, 1) == 0;
    assert Carve(bs, 0, 8) == OneUsed(lo, hi).blocks;
  }

  lemma SecondGrant(lo: int, hi: int)
    requires lo + 80 <= hi
    ensures Apply(OneUsed(lo, hi), Kmalloc(8)) == TwoUsed(lo, hi)
  {
    var bs := OneUsed(lo, hi).blocks;
    assert BestFit(bs, 8, 1) == -1;
    assert BestFit(bs, 8, 2) == 1;
    assert Carve(bs, 1, 8) == TwoUsed(lo, hi).blocks;
  }

  lemma PassThree(a: Block, b: Block, c: Block)
    ensures a.free && b.free ==> Pass([a, b, c]) == [Merge(a, b), c]
    ensures !a.free && b.free && c.free ==> Pass([a, b, c]) == [a, Merge(b, c)]
    ensures !b.free || (!a.free && !c.free) ==> Pass([a, b, c]) == [a, b, c]
  {
    var bs := [a, b, c];
    assert bs[1..] == [b, c] && bs[2..] == [c];
    assert [b, c][1..] == [c] && [b, c][2..] == [] && [c][1..] == [];
    assert Pass([c]) == [c];
  }

  lemma ThreeTile(a: Block, b: Block, c: Block)
    requires a.End() == b.addr && b.End() == c.addr && a.size >= 0 && b.size >= 0 && c.size >= 0
    requires a.size % ALIGNMENT == 0 && b.size % ALIGNMENT == 0 && c.size % ALIGNMENT == 0
    ensures Tiles([a, b, c], a.addr, c.End())
  {
    TilesOne(a);
    TilesOne(b);
    TilesOne(c);
    TilesConcat([a], [b], a.addr, b.addr, c.addr);
    TilesConcat([a] + [b], [c], a.addr, c.addr, c.End());
    assert [a] + [b] + [c] == [a, b, c];
  }

  /** A release in a list of three, on the level of blocks. */
  lemma ReleaseInThree(h: Heap, i: nat)
    requires |h.blocks| == 3 && i < 3 && Tiles(h.blocks, h.lo, h.hi) && !h.blocks[i].free
    ensures var p := h.blocks[i].Ptr();
      && p in h.Live()
      && Apply(h, Kfree(p)) == h.(blocks := Pass(h.blocks[i := Released(h.blocks[i])]),
                                  inUse := h.inUse - h.blocks[i].size - HEADER,
                                  frees := (h.frees + 1) % ADDRESS_SPACE)
  {
    hide Tiles, Pass, UsedBlocks, Extents;
    UsedIsLive(h.blocks, h.lo, h.hi, i);
    assert Marked(h.blocks, h.blocks[i].Ptr()) == h.blocks[i := Released(h.blocks[i])];
  }

  lemma RunFour(h: Heap, a: HeapCall, b: HeapCall, c: HeapCall, d: HeapCall)
    ensures Run(h, [a, b, c, d]) == Apply(Apply(Apply(Apply(h, a), b), c), d)
  {
    hide Apply;
    assert [a, b, c, d][1..] == [b, c, d] && [b, c, d][1..] == [c, d] && [c, d][1..] == [d] && [d][1..] == [];
    assert Run(h, [a, b, c, d]) == Run(Apply(h, a), [b, c, d]);
    var g := Apply(Apply(h, a), b);
    assert Run(Apply(h, a), [b, c, d]) == Run(g, [c, d]);
    assert Run(g, [c, d]) == Run(Apply(g, c), [d]) == Run(Apply(Apply(g, c), d), []);
  }

  /** The textbook invariant fails on every heap with 80 bytes: freeing B in
      `free A | B | free C` leaves `free A+B | free C`. Two grants and two releases do it. */
  lemma TextbookInvariantFails(lo: int, hi: int)
    requires lo + 80 <= hi && lo % ALIGNMENT == 0 && hi % ALIGNMENT == 0
    ensures var h := Run(Initial(lo, hi), [Kmalloc(8), Kmalloc(8), Kfree(lo + 16), Kfree(lo + 40)]);
      h.blocks == [Block(lo, 32, true), Block(lo + 48, hi - lo - 64, true)] && Pairs(h.blocks) == 1
  {
    hide Apply, Run, Tiles, Pass, UsedBlocks, Extents;
    RunFour(Initial(lo, hi), Kmalloc(8), Kmalloc(8), Kfree(lo + 16), Kfree(lo + 40));
    FirstGrant(lo, hi);
    SecondGrant(lo, hi);
    var x, y, z := Block(lo, 8, false), Block(lo + 24, 8, false), Block(lo + 48, hi - lo - 64, true);
    ThreeTile(x, y, z);
    ReleaseInThree(TwoUsed(lo, hi), 0);
    PassThree(Released(x), y, z);
    assert TwoUsed(lo, hi).blocks[0 := Released(x)] == [Released(x), y, z];
    assert Apply(TwoUsed(lo, hi), Kfree(lo + 16)) == FirstFreed(lo, hi);
    ThreeTile(Released(x), y, z);
    ReleaseInThree(FirstFreed(lo, hi), 1);
    PassThree(Released(x), Released(y), z);
    assert FirstFreed(lo, hi).blocks[1 := Released(y)] == [Released(x), Released(y), z];
    assert Apply(FirstFreed(lo, hi), Kfree(lo + 40)) == BothFreed(lo, hi);
  }

  /** ALIGN wraps: on any new heap a request for one of the last seven sizes gets a pointer
      to fewer bytes than it asked for. */
  lemma WrappedRequest(lo: int, hi: int, n: word)
    requires HEADER <= lo && lo + HEADER < hi < ADDRESS_SPACE && lo % ALIGNMENT == 0 && hi % ALIGNMENT == 0
    requires n > 0xFFFF_FFF8
    ensures var (h, p) := Alloc(Initial(lo, hi), n); p != 0 && p in h.Live() && h.Live()[p] <= 24 < n
  {
    hide Tiles, UsedBlocks, Extents, Alloc, GrantLaw;
    var bs := Initial(lo, hi).blocks;
    InitialInv(lo, hi);
    AllocMeaning(Initial(lo, hi), n);
    assert bs[0] in bs && Fits(bs[0], Align(n));
  }
}
