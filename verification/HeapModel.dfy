/** The allocator of kernel/src/mm/mm.c as a state machine on values: `Alloc` and `Free` give
    the block list and the statistics after `kmalloc` and `kfree`, and the theorems say what
    holds of every heap a run of them can reach. */
module HeapModel {
  import opened Bytes
  import opened Blocks

  datatype Heap = Heap(lo: int, hi: int, blocks: seq<Block>, inUse: int, allocs: int, frees: int) {
    /** Live pointers and the payload bytes behind them. */
    function Live(): map<int, int> { Blocks.Live(blocks) }

    /** Number of live allocations. */
    function UsedCount(): nat { |UsedBlocks(blocks)| }
  }

  /** ALIGN(size) in 32-bit unsigned arithmetic: it wraps to 0 for the last seven sizes. */
  function Align(n: word): (s: word)
    ensures s % 8 == 0
    ensures n <= 0xFFFF_FFF8 ==> n <= s < n + 8
    ensures n > 0xFFFF_FFF8 ==> s == 0
  {
    (n + ALIGNMENT - 1) % ADDRESS_SPACE / ALIGNMENT * ALIGNMENT
  }

  // ---------- best fit ----------

  ghost predicate Fits(b: Block, s: int) {
    b.free && b.size >= s
  }

  /** What the scan of `kmalloc` has found among the first `n` blocks; -1 for none. */
  function BestFit(bs: seq<Block>, s: int, n: nat): (best: int)
    requires n <= |bs|
    ensures -1 <= best < n
    ensures best < 0 ==> forall j :: 0 <= j < n ==> !Fits(bs[j], s)
    ensures best >= 0 ==> Fits(bs[best], s)
    ensures best >= 0 ==> forall j :: 0 <= j < n && Fits(bs[j], s) ==> bs[best].size <= bs[j].size
    ensures best >= 0 ==> forall j :: 0 <= j < best && Fits(bs[j], s) ==> bs[best].size < bs[j].size
  {
    if n == 0 then -1
    else
      var b := BestFit(bs, s, n - 1);
      if bs[n - 1].free && bs[n - 1].size >= s && (b < 0 || bs[n - 1].size < bs[b].size) then n - 1 else b
  }

  /** A block is cut in two when a header and a smallest payload are left over. */
  predicate Splits(b: Block, s: int) {
    b.size - s >= HEADER + MIN_BLOCK
  }

  /** The granted block. */
  function Granted(b: Block, s: int): Block {
    Block(b.addr, if Splits(b, s) then s else b.size, false)
  }

  /** The free rest behind it, if any. */
  function Rest(b: Block, s: int): seq<Block> {
    if Splits(b, s) then [Block(b.addr + HEADER + s, b.size - s - HEADER, true)] else []
  }

  function Carve(bs: seq<Block>, i: nat, s: int): seq<Block>
    requires i < |bs|
  {
    bs[..i] + [Granted(bs[i], s)] + (Rest(bs[i], s) + bs[i + 1..])
  }

  lemma CarvedFirst(bs: seq<Block>, i: nat, s: int)
    requires i < |bs|
    ensures Granted(bs[i], s).Ptr() == bs[i].Ptr()
    ensures |Carve(bs, i, s)| > 0 && Carve(bs, i, s)[0].addr == bs[0].addr
  {
  }

  /** `kmalloc(n)`: the heap afterwards and the pointer returned, 0 for NULL. */
  function Alloc(h: Heap, n: word): (Heap, int) {
    if n == 0 then (h, 0)
    else
      var s := Align(n);
      var i := BestFit(h.blocks, s, |h.blocks|);
      if i < 0 then (h, 0)
      else
        var g := Granted(h.blocks[i], s);
        (h.(blocks := Carve(h.blocks, i, s),
            inUse := h.inUse + g.size + HEADER,
            allocs := (h.allocs + 1) % ADDRESS_SPACE), g.Ptr())
  }

  // ---------- release ----------

  /** The list index of the live block at pointer `p`. */
  function Position(bs: seq<Block>, p: int): (i: nat)
    requires p in Live(bs)
    ensures i < |bs| && !bs[i].free && bs[i].Ptr() == p && bs[i].size == Live(bs)[p]
  {
    if !bs[0].free && bs[0].Ptr() == p then 0 else 1 + Position(bs[1..], p)
  }

  function Released(b: Block): Block {
    b.(free := true)
  }

  /** The list at the moment the coalescing pass of `kfree(p)` starts. */
  function Marked(bs: seq<Block>, p: int): seq<Block>
    requires p in Live(bs)
  {
    var i := Position(bs, p);
    bs[..i] + [Released(bs[i])] + bs[i + 1..]
  }

  /** `kfree(p)` for a live pointer. */
  function Free(h: Heap, p: int): Heap
    requires p in h.Live()
  {
    h.(blocks := Pass(Marked(h.blocks, p)),
       inUse := h.inUse - h.Live()[p] - HEADER,
       frees := (h.frees + 1) % ADDRESS_SPACE)
  }

  // ---------- the invariant ----------

  /** The list of an initialized heap fills lo..hi, both 8-aligned, with a header's room below
      `lo`, and the last block has a payload. An uninitialized heap has no block and no room. */
  ghost predicate Laid(h: Heap) {
    && Tiles(h.blocks, h.lo, h.hi)
    && h.lo % ALIGNMENT == 0
    && 0 <= h.lo <= h.hi < ADDRESS_SPACE
    && (|h.blocks| > 0 ==> h.lo >= HEADER && h.blocks[|h.blocks| - 1].size > 0)
  }

  /** The counters of `mm_stats` agree with the list; the call counters wrap at 32 bits. */
  ghost predicate Counted(h: Heap) {
    && h.inUse == UsedBytes(h.blocks)
    && 0 <= h.allocs < ADDRESS_SPACE && 0 <= h.frees < ADDRESS_SPACE
    && (h.allocs - h.frees) % ADDRESS_SPACE == h.UsedCount()
  }

  /** What every reachable heap satisfies. */
  ghost predicate Inv(h: Heap) {
    Laid(h) && Counted(h) && Pairs(h.blocks) <= 1
  }

  /** The heap `init_heap` sets up over lo..hi. */
  function Initial(lo: int, hi: int): Heap {
    Heap(lo, hi, [Block(lo, hi - lo - HEADER, true)], 0, 0, 0)
  }

  lemma InitialInv(lo: int, hi: int)
    requires HEADER <= lo && lo + HEADER < hi < ADDRESS_SPACE && lo % ALIGNMENT == 0 && hi % ALIGNMENT == 0
    ensures Inv(Initial(lo, hi)) && Initial(lo, hi).Live() == map[]
  {
    var bs := Initial(lo, hi).blocks;
    assert bs[1..] == [] && UsedBlocks(bs) == [];
  }

  // ---------- extents ----------

  lemma Swap(m: map<int, int>, p: int, v: int, q: int, w: int)
    requires p != q
    ensures m[p := v][q := w] == m[q := w][p := v]
  {
  }

  lemma {:induction false} ExtentsInsert(x: seq<Block>, u: Block, y: seq<Block>)
    requires u.Ptr() !in Extents(x)
    ensures Extents(x + [u] + y) == Extents(x + y)[u.Ptr() := u.size]
    decreases |x|
  {
    if |x| == 0 {
      assert x + y == y && x + [u] + y == [u] + y && ([u] + y)[1..] == y;
    } else {
      ExtentsInsert(x[1..], u, y);
      assert (x + [u] + y)[1..] == x[1..] + [u] + y && (x + y)[1..] == x[1..] + y;
      assert (x + [u] + y)[0] == x[0] == (x + y)[0];
      assert u.Ptr() != x[0].Ptr() && u.Ptr() !in Extents(x[1..]);
      Swap(Extents(x[1..] + y), x[0].Ptr(), x[0].size, u.Ptr(), u.size);
    }
  }

  lemma {:induction false} ExtentsKeys(x: seq<Block>, y: seq<Block>)
    ensures Extents(x + y).Keys == Extents(x).Keys + Extents(y).Keys
    decreases |x|
  {
    if |x| == 0 {
      assert x + y == y;
    } else {
      ExtentsKeys(x[1..], y);
      assert (x + y)[1..] == x[1..] + y;
    }
  }

  /** A live extent lies inside the heap, behind a header, on 8-byte granules. */
  lemma LiveRange(bs: seq<Block>, lo: int, hi: int, p: int)
    requires Tiles(bs, lo, hi) && p in Live(bs)
    ensures lo + HEADER <= p && p + Live(bs)[p] <= hi && Live(bs)[p] >= 0
    ensures lo % ALIGNMENT == 0 ==> p % ALIGNMENT == 0
  {
    Ordered(bs, lo, hi);
    assert bs[Position(bs, p)].Ptr() == p;
  }

  /** Every payload pointer lies below the end of the heap, even for an empty payload. */
  lemma LastPtr(bs: seq<Block>, lo: int, hi: int, i: nat)
    requires Tiles(bs, lo, hi) && i < |bs| && bs[|bs| - 1].size > 0
    ensures bs[i].Ptr() < hi
  {
    Ordered(bs, lo, hi);
    assert i < |bs| - 1 ==> bs[i].End() <= bs[|bs| - 1].addr;
  }

  /** Two live extents never overlap: a header at least lies between them. */
  lemma LiveDisjoint(bs: seq<Block>, lo: int, hi: int, p: int, q: int)
    requires Tiles(bs, lo, hi) && p in Live(bs) && q in Live(bs) && p < q
    ensures p + Live(bs)[p] + 16 <= q
  {
    Ordered(bs, lo, hi);
    var i, j := Position(bs, p), Position(bs, q);
    assert bs[i].Ptr() == p && bs[j].Ptr() == q;
    assert i < j;
  }

  /** Every used block is found again under its pointer. */
  lemma UsedIsLive(bs: seq<Block>, lo: int, hi: int, i: nat)
    requires Tiles(bs, lo, hi) && i < |bs| && !bs[i].free
    ensures bs[i].Ptr() in Live(bs) && Live(bs)[bs[i].Ptr()] == bs[i].size && Position(bs, bs[i].Ptr()) == i
  {
    var a, c := bs[..i], bs[i + 1..];
    assert bs == a + [bs[i]] + c;
    Ordered(bs, lo, hi);
    LiveAround(a, bs[i], c, lo, hi, bs);
    var j := Position(bs, bs[i].Ptr());
    assert bs[j].Ptr() == bs[i].Ptr();
  }

  lemma TilesAround(a: seq<Block>, b: Block, c: seq<Block>, lo: int, hi: int)
    requires Tiles(a + [b] + c, lo, hi)
    ensures Tiles(a, lo, b.addr) && Tiles([b], b.addr, b.End()) && Tiles(c, b.End(), hi)
  {
    var bs := a + [b] + c;
    TilesSplit(bs, lo, hi, |a|);
    assert bs[..|a|] == a && bs[|a|..] == [b] + c && ([b] + c)[1..] == c;
  }

  /** The live map around block `b`. */
  lemma LiveAround(a: seq<Block>, b: Block, c: seq<Block>, lo: int, hi: int, bs: seq<Block>)
    requires Tiles(bs, lo, hi) && bs == a + [b] + c && b.size >= 0
    ensures b.Ptr() !in Live(a + c)
    ensures Live(bs) == if b.free then Live(a + c) else Live(a + c)[b.Ptr() := b.size]
  {
    hide Tiles, UsedBlocks, Extents;
    TilesAround(a, b, c, lo, hi);
    if b.Ptr() in Live(a) { LiveRange(a, lo, b.addr, b.Ptr()); }
    if b.Ptr() in Live(c) { LiveRange(c, b.End(), hi, b.Ptr()); }
    UsedAround(a, b, c);
    UsedConcat(a, c);
    ExtentsKeys(UsedBlocks(a), UsedBlocks(c));
    if b.free {
      assert UsedBlocks(a) + [] + UsedBlocks(c) == UsedBlocks(a) + UsedBlocks(c);
    } else {
      ExtentsInsert(UsedBlocks(a), b, UsedBlocks(c));
    }
  }
}
