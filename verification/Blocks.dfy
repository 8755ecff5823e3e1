/** The block list of kernel/src/mm/mm.c as a value: a sequence of headers in list order,
    with the coalescing pass of `kfree` and the shape of the free regions it works on. */
module Blocks {

  const HEADER := 16       // sizeof(mem_block_t) on the 32-bit target
  const MIN_BLOCK := 16
  const ALIGNMENT := 8

  /** A header at `addr` and the `size` payload bytes behind it. */
  datatype Block = Block(addr: int, size: int, free: bool) {
    /** The pointer `kmalloc` hands out for this block. */
    function Ptr(): int { addr + HEADER }

    /** The first address behind the payload. */
    function End(): int { addr + HEADER + size }
  }

  // ---------- tiling ----------

  /** The blocks cover lo..hi without gap or overlap, in 8-byte granules. */
  ghost predicate Tiles(bs: seq<Block>, lo: int, hi: int) {
    if |bs| == 0 then lo == hi
    else bs[0].addr == lo && bs[0].size >= 0 && bs[0].size % ALIGNMENT == 0 && Tiles(bs[1..], bs[0].End(), hi)
  }

  /** Tiling blocks lie in strict address order inside lo..hi, on 8-byte granules. */
  lemma {:induction false} Ordered(bs: seq<Block>, lo: int, hi: int)
    requires Tiles(bs, lo, hi)
    ensures forall i, j :: 0 <= i < j < |bs| ==> bs[i].End() <= bs[j].addr
    ensures forall i :: 0 <= i < |bs| ==>
        lo <= bs[i].addr && bs[i].End() <= hi && bs[i].size >= 0 && bs[i].size % ALIGNMENT == 0
    ensures lo % ALIGNMENT == 0 ==> forall i :: 0 <= i < |bs| ==> bs[i].addr % ALIGNMENT == 0
    ensures lo <= hi && (|bs| > 0 ==> lo < hi)
    decreases |bs|
  {
    if |bs| > 0 {
      var rest := bs[1..];
      Ordered(rest, bs[0].End(), hi);
      Granules(bs[0]);
      hide Tiles;
      forall i | 0 <= i < |bs|
        ensures lo <= bs[i].addr && bs[i].End() <= hi && bs[i].size >= 0 && bs[i].size % ALIGNMENT == 0
        ensures lo % ALIGNMENT == 0 ==> bs[i].addr % ALIGNMENT == 0
      {
        if i > 0 { assert bs[i] == rest[i - 1]; }
      }
      forall i, j | 0 <= i < j < |bs|
        ensures bs[i].End() <= bs[j].addr
      {
        assert bs[j] == rest[j - 1];
        if i > 0 { assert bs[i] == rest[i - 1]; }
      }
    }
  }

  lemma Granules(b: Block)
    requires b.size % ALIGNMENT == 0
    ensures b.addr % ALIGNMENT == 0 ==> b.End() % ALIGNMENT == 0
  {
  }

  lemma TilesCons(b: Block, bs: seq<Block>, lo: int, hi: int)
    ensures Tiles([b] + bs, lo, hi) <==>
        b.addr == lo && b.size >= 0 && b.size % ALIGNMENT == 0 && Tiles(bs, b.End(), hi)
  {
    assert ([b] + bs)[1..] == bs;
  }

  lemma Bounds(bs: seq<Block>, lo: int, hi: int)
    requires Tiles(bs, lo, hi)
    ensures forall i :: 0 <= i < |bs| ==> lo <= bs[i].addr <= hi
  {
    Ordered(bs, lo, hi);
  }

  /** The same for one block. */
  lemma InRange(bs: seq<Block>, lo: int, hi: int, i: nat)
    requires Tiles(bs, lo, hi) && i < |bs|
    ensures lo <= bs[i].addr && bs[i].End() <= hi && bs[i].size >= 0 && bs[i].size % ALIGNMENT == 0
    ensures lo % ALIGNMENT == 0 ==> bs[i].Ptr() % ALIGNMENT == 0
  {
    hide Tiles;
    Ordered(bs, lo, hi);
  }

  lemma {:induction false} TilesSplit(bs: seq<Block>, lo: int, hi: int, i: nat)
    requires Tiles(bs, lo, hi) && i <= |bs|
    ensures Tiles(bs[..i], lo, if i < |bs| then bs[i].addr else hi)
    ensures Tiles(bs[i..], if i < |bs| then bs[i].addr else hi, hi)
    decreases i
  {
    if i == 0 {
      assert bs[..0] == [] && bs[0..] == bs;
    } else {
      TilesSplit(bs[1..], bs[0].End(), hi, i - 1);
      assert bs[..i][1..] == bs[1..][..i - 1];
      assert bs[1..][i - 1..] == bs[i..];
    }
  }

  lemma {:induction false} TilesConcat(a: seq<Block>, b: seq<Block>, lo: int, mid: int, hi: int)
    requires Tiles(a, lo, mid) && Tiles(b, mid, hi)
    ensures Tiles(a + b, lo, hi)
    decreases |a|
  {
    if |a| == 0 {
      assert a + b == b;
    } else {
      assert (a + b)[1..] == a[1..] + b;
      TilesConcat(a[1..], b, a[0].End(), mid, hi);
    }
  }

  lemma TilesOne(b: Block)
    requires b.size >= 0 && b.size % ALIGNMENT == 0
    ensures Tiles([b], b.addr, b.End())
  {
  }

  /** Each block ends exactly where its successor's header begins, the last one at the end. */
  lemma {:induction false} Adjacent(bs: seq<Block>, lo: int, hi: int, i: nat)
    requires Tiles(bs, lo, hi) && i < |bs|
    ensures bs[i].End() == if i + 1 < |bs| then bs[i + 1].addr else hi
  {
    TilesSplit(bs, lo, hi, i);
    assert bs[i..][1..] == bs[i + 1..];
  }

  // ---------- used blocks ----------

  /** The blocks in use, in list order. */
  function UsedBlocks(bs: seq<Block>): seq<Block> {
    if |bs| == 0 then []
    else if bs[0].free then UsedBlocks(bs[1..])
    else [bs[0]] + UsedBlocks(bs[1..])
  }

  lemma {:induction false} UsedConcat(a: seq<Block>, b: seq<Block>)
    ensures UsedBlocks(a + b) == UsedBlocks(a) + UsedBlocks(b)
  {
    if |a| == 0 {
      assert a + b == b;
    } else {
      assert (a + b)[1..] == a[1..] + b;
      UsedConcat(a[1..], b);
    }
  }

  lemma UsedAround(a: seq<Block>, b: Block, c: seq<Block>)
    ensures UsedBlocks(a + [b] + c) == UsedBlocks(a) + (if b.free then [] else [b]) + UsedBlocks(c)
  {
    UsedConcat(a + [b], c);
    UsedConcat(a, [b]);
    assert [b][1..] == [];
  }

  /** Pointer to payload size, for every block of a list. */
  function Extents(us: seq<Block>): map<int, int> {
    if |us| == 0 then map[] else Extents(us[1..])[us[0].Ptr() := us[0].size]
  }

  /** The live allocations: what `kmalloc` granted and `kfree` has not taken back. */
  function Live(bs: seq<Block>): map<int, int> {
    Extents(UsedBlocks(bs))
  }

  function Footprint(bs: seq<Block>): int {
    if |bs| == 0 then 0 else bs[0].size + HEADER + Footprint(bs[1..])
  }

  /** Bytes of headers and payloads in use. */
  function UsedBytes(bs: seq<Block>): int {
    Footprint(UsedBlocks(bs))
  }

  lemma {:induction false} FootprintConcat(a: seq<Block>, b: seq<Block>)
    ensures Footprint(a + b) == Footprint(a) + Footprint(b)
  {
    if |a| == 0 {
      assert a + b == b;
    } else {
      assert (a + b)[1..] == a[1..] + b;
      FootprintConcat(a[1..], b);
    }
  }

  lemma UsedBytesAround(a: seq<Block>, b: Block, c: seq<Block>)
    ensures UsedBytes(a + [b] + c) == UsedBytes(a) + (if b.free then 0 else b.size + HEADER) + UsedBytes(c)
  {
    UsedAround(a, b, c);
    var u := if b.free then [] else [b];
    FootprintConcat(UsedBlocks(a) + u, UsedBlocks(c));
    FootprintConcat(UsedBlocks(a), u);
    assert [b][1..] == [];
  }

  lemma {:induction false} UsedBytesBound(us: seq<Block>)
    requires forall u :: u in us ==> u.size >= 0
    ensures Footprint(us) >= HEADER * |us|
  {
    if |us| > 0 {
      UsedBytesBound(us[1..]);
    }
  }

  lemma {:induction false} UsedAreBlocks(bs: seq<Block>)
    ensures forall u :: u in UsedBlocks(bs) ==> u in bs
  {
    if |bs| > 0 {
      UsedAreBlocks(bs[1..]);
    }
  }

  /** There is room for only so many used blocks. */
  lemma UsedCountBound(bs: seq<Block>, lo: int, hi: int)
    requires Tiles(bs, lo, hi)
    ensures HEADER * |UsedBlocks(bs)| <= UsedBytes(bs) <= hi - lo
    ensures FreeBytes(bs) >= 0
  {
    Ordered(bs, lo, hi);
    UsedAreBlocks(bs);
    UsedBytesBound(UsedBlocks(bs));
    FreeAndUsed(bs, lo, hi);
    FreeBytesPositive(bs);
  }

  // ---------- free blocks ----------

  /** Bytes of headers and payloads that are free. */
  function FreeBytes(bs: seq<Block>): int {
    if |bs| == 0 then 0 else (if bs[0].free then bs[0].size + HEADER else 0) + FreeBytes(bs[1..])
  }

  lemma {:induction false} FreeBytesPositive(bs: seq<Block>)
    requires forall b :: b in bs ==> b.size >= 0
    ensures FreeBytes(bs) >= 0
  {
    if |bs| > 0 {
      FreeBytesPositive(bs[1..]);
    }
  }

  function FreeCount(bs: seq<Block>): nat {
    if |bs| == 0 then 0 else (if bs[0].free then 1 else 0) + FreeCount(bs[1..])
  }

  /** Address `a` belongs to a free block, header included. */
  ghost predicate FreeAt(bs: seq<Block>, a: int) {
    |bs| > 0 && ((bs[0].free && bs[0].addr <= a < bs[0].End()) || FreeAt(bs[1..], a))
  }

  /** What is not in use is free: the two sums always add up to the whole range. */
  lemma {:induction false} FreeAndUsed(bs: seq<Block>, lo: int, hi: int)
    requires Tiles(bs, lo, hi)
    ensures FreeBytes(bs) + UsedBytes(bs) == hi - lo
    decreases |bs|
  {
    if |bs| > 0 {
      FreeAndUsed(bs[1..], bs[0].End(), hi);
      if !bs[0].free {
        assert UsedBlocks(bs)[1..] == UsedBlocks(bs[1..]);
      }
    }
  }

  /** If every free block is at most `c` bytes long, so is their number times `c + HEADER`
      a bound on the free bytes. */
  lemma {:induction false} FreeBytesBound(bs: seq<Block>, c: int)
    requires forall i :: 0 <= i < |bs| && bs[i].free ==> bs[i].size <= c
    ensures FreeBytes(bs) <= FreeCount(bs) * (c + HEADER)
    decreases |bs|
  {
    if |bs| > 0 {
      FreeBytesBound(bs[1..], c);
      assert (FreeCount(bs[1..]) + 1) * (c + HEADER) == FreeCount(bs[1..]) * (c + HEADER) + (c + HEADER);
    }
  }

  // ---------- runs of free blocks ----------

  /** The free runs of a list, front to back: `Cut(k, rest)` is a run of k free blocks, a
      used block, and then `rest`; `Last(k)` is the run behind the last used block. */
  datatype Gaps = Last(k: nat) | Cut(k: nat, rest: Gaps) {
    /** The length of run `u`, which lies between used blocks `u - 1` and `u`. */
    function At(u: nat): nat
      requires u < Count()
    {
      if u == 0 then k else rest.At(u - 1)
    }

    function Count(): (n: nat)
      ensures n > 0
    {
      if Last? then 1 else 1 + rest.Count()
    }

    /** `n` more free blocks in the first run. */
    function Longer(n: nat): Gaps {
      if Last? then Last(k + n) else Cut(k + n, rest)
    }

    /** Two lists put end to end: the run they meet in is one run. */
    function Join(s: Gaps): Gaps {
      if Last? then s.Longer(k) else Cut(k, rest.Join(s))
    }

    /** A run of k > 0 blocks holds k - 1 adjacent pairs. */
    function Excess(): nat {
      (if k > 0 then k - 1 else 0) + (if Last? then 0 else rest.Excess())
    }

    /** Every run of k blocks cut down to ceil(k/2). */
    function Halve(): Gaps {
      if Last? then Last((k + 1) / 2) else Cut((k + 1) / 2, rest.Halve())
    }
  }

  function Runs(bs: seq<Block>): Gaps {
    if |bs| == 0 then Last(0)
    else if bs[0].free then Runs(bs[1..]).Longer(1)
    else Cut(0, Runs(bs[1..]))
  }

  lemma {:induction false} RunsConcat(a: seq<Block>, b: seq<Block>)
    ensures Runs(a + b) == Runs(a).Join(Runs(b))
    decreases |a|
  {
    if |a| == 0 {
      assert a + b == b;
    } else {
      assert (a + b)[1..] == a[1..] + b;
      RunsConcat(a[1..], b);
    }
  }

  /** A block between `a` and `c`: in use it keeps their runs apart, free it links the last
      run of `a` with the first run of `c`. */
  lemma RunsAround(a: seq<Block>, b: Block, c: seq<Block>)
    ensures Runs(a + [b] + c) == Runs(a).Join(if b.free then Runs(c).Longer(1) else Cut(0, Runs(c)))
  {
    assert a + [b] + c == a + ([b] + c);
    RunsConcat(a, [b] + c);
    assert ([b] + c)[1..] == c;
  }

  lemma {:induction false} RunsCount(bs: seq<Block>)
    ensures Runs(bs).Count() == |UsedBlocks(bs)| + 1
  {
    if |bs| > 0 {
      RunsCount(bs[1..]);
    }
  }

  /** Adjacent pairs of free blocks in the list. */
  function Pairs(bs: seq<Block>): nat {
    if |bs| < 2 then 0 else (if bs[0].free && bs[1].free then 1 else 0) + Pairs(bs[1..])
  }

  lemma {:induction false} PairsAreExcess(bs: seq<Block>)
    ensures Pairs(bs) == Runs(bs).Excess()
    decreases |bs|
  {
    if |bs| > 0 {
      PairsAreExcess(bs[1..]);
    }
  }

  lemma {:induction false} FreeCountBound(bs: seq<Block>)
    ensures FreeCount(bs) <= |UsedBlocks(bs)| + 1 + Pairs(bs)
    ensures FreeCount(bs) + |UsedBlocks(bs)| == |bs|
    decreases |bs|
  {
    if |bs| > 1 {
      FreeCountBound(bs[1..]);
      if bs[0].free && !bs[1].free {
        FreeCountBound(bs[1..][1..]);
      }
    }
  }

  // ---------- the coalescing pass ----------

  /** Two neighbours merged into one block. */
  function Merge(b: Block, c: Block): Block {
    Block(b.addr, b.size + HEADER + c.size, true)
  }

  /** The loop of `kfree`: one walk over the list that merges a free block with a free
      successor, then steps to whatever follows, so a merged block is not looked at again. */
  function Pass(bs: seq<Block>): seq<Block> {
    if |bs| == 0 then []
    else if |bs| > 1 && bs[0].free && bs[1].free then [Merge(bs[0], bs[1])] + Pass(bs[2..])
    else [bs[0]] + Pass(bs[1..])
  }

  lemma EmptyPass()
    ensures Pass([]) == []
  {
  }

  lemma HalveTwoMore(k: nat)
    ensures (k + 2 + 1) / 2 == (k + 1) / 2 + 1
  {
  }

  lemma {:induction false} HalveLonger(r: Gaps)
    ensures r.Longer(1).Longer(1).Halve() == r.Halve().Longer(1)
    ensures r.k == 0 ==> r.Longer(1).Halve() == r.Halve().Longer(1)
  {
    HalveTwoMore(r.k);
  }

  lemma RunsCons(b: Block, bs: seq<Block>)
    ensures Runs([b] + bs) == if b.free then Runs(bs).Longer(1) else Cut(0, Runs(bs))
    ensures bs == [] || !bs[0].free ==> Runs(bs).k == 0
  {
    assert ([b] + bs)[1..] == bs;
  }

  /** For any list: the pass leaves ceil(k/2) blocks of every maximal run of k free blocks. */
  lemma {:induction false} PassHalvesRuns(bs: seq<Block>)
    ensures Runs(Pass(bs)) == Runs(bs).Halve()
    decreases |bs|
  {
    if |bs| == 0 {
    } else if |bs| > 1 && bs[0].free && bs[1].free {
      var rest := bs[2..];
      PassHalvesRuns(rest);
      assert bs == [bs[0]] + ([bs[1]] + rest);
      RunsCons(bs[0], [bs[1]] + rest);
      RunsCons(bs[1], rest);
      RunsCons(Merge(bs[0], bs[1]), Pass(rest));
      HalveLonger(Runs(rest));
    } else {
      var rest := bs[1..];
      PassHalvesRuns(rest);
      assert bs == [bs[0]] + rest;
      RunsCons(bs[0], rest);
      RunsCons(bs[0], Pass(rest));
      HalveLonger(Runs(rest));
    }
  }

  /** For any list: the pass touches no used block. */
  lemma {:induction false} PassKeepsUsed(bs: seq<Block>)
    ensures UsedBlocks(Pass(bs)) == UsedBlocks(bs)
    decreases |bs|
  {
    if |bs| == 0 {
    } else if |bs| > 1 && bs[0].free && bs[1].free {
      PassKeepsUsed(bs[2..]);
      assert bs[1..][1..] == bs[2..];
      assert Pass(bs)[1..] == Pass(bs[2..]);
    } else {
      PassKeepsUsed(bs[1..]);
      assert Pass(bs)[1..] == Pass(bs[1..]);
    }
  }

  lemma {:induction false} PassTiles(bs: seq<Block>, lo: int, hi: int)
    requires Tiles(bs, lo, hi)
    ensures Tiles(Pass(bs), lo, hi)
    decreases |bs|
  {
    if |bs| == 0 {
    } else if |bs| > 1 && bs[0].free && bs[1].free {
      var rest := bs[2..];
      assert bs[1..] == [bs[1]] + rest;
      TilesCons(bs[1], rest, bs[0].End(), hi);
      PassTiles(rest, bs[1].End(), hi);
      TilesCons(Merge(bs[0], bs[1]), Pass(rest), lo, hi);
    } else {
      var rest := bs[1..];
      PassTiles(rest, bs[0].End(), hi);
      TilesCons(bs[0], Pass(rest), lo, hi);
    }
  }

  /** The last block never shrinks. */
  lemma {:induction false} PassLast(bs: seq<Block>)
    requires |bs| > 0 && forall b :: b in bs ==> b.size >= 0
    ensures |Pass(bs)| > 0 && Pass(bs)[|Pass(bs)| - 1].size >= bs[|bs| - 1].size
    decreases |bs|
  {
    if |bs| > 1 && bs[0].free && bs[1].free {
      if |bs| > 2 { PassLast(bs[2..]); }
    } else if |bs| > 1 {
      PassLast(bs[1..]);
    }
  }

  /** The pass frees and takes no address. */
  lemma {:induction false} PassKeepsFreeAddresses(bs: seq<Block>, lo: int, hi: int, a: int)
    requires Tiles(bs, lo, hi)
    ensures FreeAt(Pass(bs), a) <==> FreeAt(bs, a)
    decreases |bs|
  {
    if |bs| == 0 {
    } else if |bs| > 1 && bs[0].free && bs[1].free {
      assert bs[1..][1..] == bs[2..];
      PassKeepsFreeAddresses(bs[2..], bs[1].End(), hi, a);
      assert Pass(bs)[1..] == Pass(bs[2..]);
    } else {
      PassKeepsFreeAddresses(bs[1..], bs[0].End(), hi, a);
      assert Pass(bs)[1..] == Pass(bs[1..]);
    }
  }
}
