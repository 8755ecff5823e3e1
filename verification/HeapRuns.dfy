/** What one call of `kmalloc` or `kfree` means for the live allocations, and why it keeps the
    heap invariant; in particular, where an adjacent pair of free blocks can be left. */
module HeapRuns {
  import opened Bytes
  import opened Blocks
  import opened HeapModel

  // ---------- what kmalloc must grant ----------

  // Stated on the list and in numbers of the source, without the functions that compute it.

  /** Some free block has at least `n` bytes. */
  ghost predicate HasRoom(bs: seq<Block>, n: int) {
    exists b :: b in bs && b.free && b.size >= n
  }

  /** Block `i` is free, the smallest with at least `s` bytes, the first among equals. */
  ghost predicate Chosen(bs: seq<Block>, s: int, i: int) {
    && 0 <= i < |bs| && bs[i].free && bs[i].size >= s
    && (forall j :: 0 <= j < |bs| && bs[j].free && bs[j].size >= s ==> bs[i].size <= bs[j].size)
    && (forall j :: 0 <= j < i && bs[j].free && bs[j].size >= s ==> bs[i].size < bs[j].size)
  }

  /** Block `i` is granted whole if less than 32 bytes are left; otherwise it is cut behind
      `s` bytes, and the rest is one free block. */
  ghost predicate GrantedAt(bs: seq<Block>, s: int, i: int, p: int, size: int, after: seq<Block>)
    requires 0 <= i < |bs|
  {
    var b := bs[i];
    && p == b.addr + 16
    && size == (if b.size - s < 32 then b.size else s)
    && after == bs[..i] + [Block(b.addr, size, false)]
                + (if b.size - s < 32 then [] else [Block(b.addr + 16 + s, b.size - s - 16, true)]) + bs[i + 1..]
  }

  /** The pointer, its extent and the list after a grant of `s` aligned bytes. */
  ghost predicate GrantLaw(bs: seq<Block>, s: int, p: int, size: int, after: seq<Block>) {
    exists i :: Chosen(bs, s, i) && GrantedAt(bs, s, i, p, size, after)
  }

  lemma BestFitChosen(bs: seq<Block>, s: int)
    ensures var i := BestFit(bs, s, |bs|);
      && (i < 0 <==> !HasRoom(bs, s))
      && (i >= 0 ==> Chosen(bs, s, i))
  {
    var i := BestFit(bs, s, |bs|);
    hide BestFit;
    if i >= 0 {
      assert bs[i] in bs && Fits(bs[i], s);
      assert forall j :: 0 <= j < |bs| && bs[j].free && bs[j].size >= s ==> Fits(bs[j], s);
    } else {
      assert forall b :: b in bs ==> !Fits(b, s);
    }
  }

  lemma CarveGranted(bs: seq<Block>, s: int, i: nat)
    requires i < |bs|
    ensures GrantedAt(bs, s, i, Granted(bs[i], s).Ptr(), Granted(bs[i], s).size, Carve(bs, i, s))
  {
    var x, y, z := bs[..i] + [Granted(bs[i], s)], Rest(bs[i], s), bs[i + 1..];
    assert x + (y + z) == x + y + z;
  }

  // ---------- kmalloc ----------

  lemma CarveTiles(bs: seq<Block>, lo: int, hi: int, i: nat, s: int)
    requires Tiles(bs, lo, hi) && i < |bs| && Fits(bs[i], s) && s >= 0 && s % ALIGNMENT == 0
    ensures Tiles(Carve(bs, i, s), lo, hi)
    ensures bs[|bs| - 1].size > 0 ==> Carve(bs, i, s)[|Carve(bs, i, s)| - 1].size > 0
  {
    var b, a, c := bs[i], bs[..i], bs[i + 1..];
    var g, rest := Granted(b, s), Rest(b, s);
    assert bs == a + [b] + c;
    TilesAround(a, b, c, lo, hi);
    TilesConcat([g], rest, b.addr, g.End(), b.End());
    TilesConcat(rest, c, g.End(), b.End(), hi);
    TilesConcat(a, [g], lo, b.addr, g.End());
    TilesConcat(a + [g], rest + c, lo, g.End(), hi);
    assert |c| > 0 ==> c[|c| - 1] == bs[|bs| - 1];
  }

  /** The used blocks around a granted one stay what they were. */
  lemma CarveUsed(bs: seq<Block>, i: nat, s: int)
    requires i < |bs| && bs[i].free
    ensures UsedBlocks(Rest(bs[i], s) + bs[i + 1..]) == UsedBlocks(bs[i + 1..])
    ensures |UsedBlocks(Carve(bs, i, s))| == |UsedBlocks(bs)| + 1
    ensures UsedBytes(Carve(bs, i, s)) == UsedBytes(bs) + Granted(bs[i], s).size + HEADER
  {
    var b, a, c := bs[i], bs[..i], bs[i + 1..];
    var g, rest := Granted(b, s), Rest(b, s);
    assert bs == a + [b] + c;
    UsedConcat(rest, c);
    assert UsedBlocks(rest) == [] by { assert |rest| > 0 ==> rest[1..] == []; }
    hide UsedBlocks, Granted, Rest;
    assert UsedBlocks(rest + c) == UsedBlocks(c);
    UsedAround(a, b, c);
    UsedAround(a, g, rest + c);
    UsedBytesAround(a, b, c);
    UsedBytesAround(a, g, rest + c);
  }

  /** Taking a block out of a free run and cutting it never makes more adjacent pairs. */
  lemma CarvePairs(bs: seq<Block>, i: nat, s: int)
    requires i < |bs| && bs[i].free
    ensures Pairs(Carve(bs, i, s)) <= Pairs(bs)
  {
    var b, a, c := bs[i], bs[..i], bs[i + 1..];
    var g, rest := Granted(b, s), Rest(b, s);
    assert bs == a + [b] + c;
    RunsAround(a, b, c);
    RunsAround(a, g, rest + c);
    assert Runs(rest + c) == Runs(c) || Runs(rest + c) == Runs(c).Longer(1) by {
      if |rest| > 0 { assert (rest + c)[1..] == c; } else { assert rest + c == c; }
    }
    CutExcess(Runs(a), Runs(c), Runs(rest + c));
    PairsAreExcess(bs);
    PairsAreExcess(Carve(bs, i, s));
  }

  lemma {:induction false} CutExcess(r: Gaps, s: Gaps, t: Gaps)
    requires t == s || t == s.Longer(1)
    ensures r.Join(Cut(0, t)).Excess() <= r.Join(s.Longer(1)).Excess()
    decreases r
  {
    if r.Cut? {
      CutExcess(r.rest, s, t);
    }
  }

  lemma GrantedSize(b: Block, s: int)
    requires b.size >= s && b.size % ALIGNMENT == 0 && s % ALIGNMENT == 0
    ensures s <= Granted(b, s).size <= s + 24 && Granted(b, s).size <= b.size
    ensures Granted(b, s).Ptr() == b.Ptr() && !Granted(b, s).free
  {
  }

  lemma CarveShape(bs: seq<Block>, i: nat, s: int)
    requires i < |bs|
    ensures bs == bs[..i] + [bs[i]] + bs[i + 1..]
    ensures Carve(bs, i, s) == bs[..i] + [Granted(bs[i], s)] + (Rest(bs[i], s) + bs[i + 1..])
  {
  }

  lemma CarveLive(bs: seq<Block>, lo: int, hi: int, i: nat, s: int)
    requires Tiles(bs, lo, hi) && i < |bs| && Fits(bs[i], s) && s >= 0 && s % ALIGNMENT == 0
    ensures bs[i].Ptr() !in Live(bs)
    ensures Live(Carve(bs, i, s)) == Live(bs)[bs[i].Ptr() := Granted(bs[i], s).size]
  {
    hide Tiles, UsedBlocks, Extents, Carve, Granted, Rest;
    var b, a, c := bs[i], bs[..i], bs[i + 1..];
    var g, rest := Granted(b, s), Rest(b, s);
    CarveShape(bs, i, s);
    CarveTiles(bs, lo, hi, i, s);
    CarveUsed(bs, i, s);
    InRange(bs, lo, hi, i);
    GrantedSize(b, s);
    LiveAround(a, b, c, lo, hi, bs);
    LiveAround(a, g, rest + c, lo, hi, Carve(bs, i, s));
    UsedConcat(a, rest + c);
    UsedConcat(a, c);
  }

  /** A successful `kmalloc`, on the block list: the `i`-th block is granted. */
  lemma CarveMeaning(bs: seq<Block>, lo: int, hi: int, i: nat, s: int)
    requires Tiles(bs, lo, hi) && i < |bs| && Fits(bs[i], s) && s >= 0 && s % ALIGNMENT == 0
    requires lo % ALIGNMENT == 0 && bs[|bs| - 1].size > 0
    ensures var (g, p, cs) := (Granted(bs[i], s), bs[i].Ptr(), Carve(bs, i, s));
      && g.Ptr() == p && p % ALIGNMENT == 0 && lo + HEADER <= p < hi && p + g.size <= hi
      && s <= g.size <= s + 24
      && Tiles(cs, lo, hi) && |cs| > 0 && cs[|cs| - 1].size > 0
      && p !in Live(bs) && Live(cs) == Live(bs)[p := g.size]
      && |UsedBlocks(cs)| == |UsedBlocks(bs)| + 1
      && UsedBytes(cs) == UsedBytes(bs) + g.size + HEADER
  {
    hide Tiles, Carve, UsedBlocks, Extents, Granted, Footprint;
    InRange(bs, lo, hi, i);
    LastPtr(bs, lo, hi, i);
    GrantedSize(bs[i], s);
    CarveTiles(bs, lo, hi, i, s);
    CarveUsed(bs, i, s);
    CarveLive(bs, lo, hi, i, s);
    CarvedFirst(bs, i, s);
  }

  /** `kmalloc` when the scan finds block `i`, and when it finds none. */
  lemma AllocFound(h: Heap, n: word, i: nat)
    requires n > 0 && i < |h.blocks| && BestFit(h.blocks, Align(n), |h.blocks|) == i
    ensures var (h', p) := Alloc(h, n);
      && p == Granted(h.blocks[i], Align(n)).Ptr()
      && h'.blocks == Carve(h.blocks, i, Align(n)) && h'.lo == h.lo && h'.hi == h.hi
      && h'.inUse == h.inUse + Granted(h.blocks[i], Align(n)).size + HEADER
  {
  }

  lemma AllocNone(h: Heap, n: word)
    requires n == 0 || BestFit(h.blocks, Align(n), |h.blocks|) < 0
    ensures Alloc(h, n) == (h, 0)
  {
  }

  /** `kmalloc` on the level of live allocations: NULL changes nothing and comes back for a
      zero request or when no free block is large enough; otherwise exactly one extent is
      added, disjoint from all others, 8-aligned, at most 24 bytes over ALIGN(n), and at least
      as large as asked for unless ALIGN wraps; which block, and how it is cut, is the law. */
  lemma AllocMeaning(h: Heap, n: word)
    requires Laid(h)
    ensures var (h', p) := Alloc(h, n);
      && Laid(h') && h'.lo == h.lo && h'.hi == h.hi
      && (p == 0 <==> n == 0 || forall b :: b in h.blocks ==> !(b.free && b.size >= Align(n)))
      && (p == 0 ==> h' == h)
      && (p != 0 ==>
            && p !in h.Live() && p in h'.Live()
            && h'.Live() == h.Live()[p := h'.Live()[p]]
            && p % 8 == 0
            && h.lo + 16 <= p < h.hi
            && Align(n) <= h'.Live()[p] <= Align(n) + 24
            && (h'.Live()[p] >= n <==> n <= 0xFFFF_FFF8)
            && p + h'.Live()[p] <= h.hi
            && h'.UsedCount() == h.UsedCount() + 1
            && UsedBytes(h'.blocks) == UsedBytes(h.blocks) + h'.Live()[p] + 16
            && h'.inUse == h.inUse + h'.Live()[p] + 16
            && GrantLaw(h.blocks, Align(n), p, h'.Live()[p], h'.blocks))
  {
    hide Tiles, Carve, UsedBlocks, Live, UsedBytes, BestFit, Align, Granted, Alloc, Chosen, GrantedAt;
    var s := Align(n);
    var i := BestFit(h.blocks, s, |h.blocks|);
    if n == 0 || i < 0 {
      AllocNone(h, n);
    } else {
      assert h.blocks[i] in h.blocks;
      AllocFound(h, n, i);
      CarveMeaning(h.blocks, h.lo, h.hi, i, s);
      BestFitChosen(h.blocks, s);
      CarveGranted(h.blocks, s, i);
    }
  }

  lemma AlignUp(n: word)
    requires n <= 0xFFFF_FFF8
    ensures Align(n) == (n + 7) / 8 * 8
  {
  }

  /** For a request that does not wrap: when `kmalloc` succeeds, and how much it grants. */
  lemma RoomFor(h: Heap, n: word)
    requires Laid(h) && 0 < n <= 0xFFFF_FFF8
    ensures var (h', p) := Alloc(h, n); var s := (n + 7) / 8 * 8;
      && (p != 0 <==> HasRoom(h.blocks, s))
      && (p != 0 ==> p in h'.Live() && s <= h'.Live()[p] <= s + 24)
  {
    hide Alloc, Align, Tiles, UsedBlocks, Extents, GrantLaw;
    AlignUp(n);
    AllocMeaning(h, n);
  }

  lemma AllocKeepsInv(h: Heap, n: word)
    requires Inv(h)
    ensures Inv(Alloc(h, n).0)
  {
    hide Tiles, Carve, UsedBlocks, Extents, Footprint, BestFit, Align, Pairs, GrantLaw;
    AllocMeaning(h, n);
    var i := BestFit(h.blocks, Align(n), |h.blocks|);
    if n != 0 && i >= 0 {
      var h' := Alloc(h, n).0;
      CarvePairs(h.blocks, i, Align(n));
      AllocFound(h, n, i);
      UsedCountBound(h'.blocks, h'.lo, h'.hi);
      GrantCounted(h.allocs, h.frees, h.UsedCount());
    }
  }

  // The call counters in 32-bit arithmetic.

  lemma Residue(z: int, n: int)
    requires -ADDRESS_SPACE < z < ADDRESS_SPACE && 0 <= n < ADDRESS_SPACE
    ensures z % ADDRESS_SPACE == n <==> z == n || z == n - ADDRESS_SPACE
  {
  }

  lemma GrantCounted(x: int, y: int, n: int)
    requires 0 <= x < ADDRESS_SPACE && 0 <= y < ADDRESS_SPACE && (x - y) % ADDRESS_SPACE == n
    requires n + 1 < ADDRESS_SPACE
    ensures ((x + 1) % ADDRESS_SPACE - y) % ADDRESS_SPACE == n + 1
  {
    Residue(x - y, n);
    var x' := if x + 1 == ADDRESS_SPACE then 0 else x + 1;
    assert (x + 1) % ADDRESS_SPACE == x';
    Residue(x' - y, n + 1);
  }

  lemma ReleaseCounted(x: int, y: int, n: int)
    requires 0 <= x < ADDRESS_SPACE && 0 <= y < ADDRESS_SPACE && (x - y) % ADDRESS_SPACE == n
    requires 0 < n
    ensures (x - (y + 1) % ADDRESS_SPACE) % ADDRESS_SPACE == n - 1
  {
    Residue(x - y, n);
    var y' := if y + 1 == ADDRESS_SPACE then 0 else y + 1;
    assert (y + 1) % ADDRESS_SPACE == y';
    Residue(x - y', n - 1);
  }

  // ---------- kfree ----------

  lemma FreeTiles(bs: seq<Block>, lo: int, hi: int, p: int)
    requires Tiles(bs, lo, hi) && p in Live(bs)
    ensures Tiles(Marked(bs, p), lo, hi)
    ensures Tiles(Pass(Marked(bs, p)), lo, hi)
  {
    var i := Position(bs, p);
    var a, b, c := bs[..i], bs[i], bs[i + 1..];
    var f := Released(b);
    assert bs == a + [b] + c;
    TilesAround(a, b, c, lo, hi);
    TilesConcat(a, [f], lo, b.addr, b.End());
    TilesConcat(a + [f], c, lo, b.End(), hi);
    PassTiles(Marked(bs, p), lo, hi);
  }

  lemma FreeUsed(bs: seq<Block>, p: int)
    requires p in Live(bs)
    ensures |UsedBlocks(Pass(Marked(bs, p)))| == |UsedBlocks(bs)| - 1
    ensures UsedBytes(Pass(Marked(bs, p))) == UsedBytes(bs) - Live(bs)[p] - HEADER
  {
    hide UsedBlocks, Pass, Extents, Footprint;
    var i := Position(bs, p);
    var a, b, c := bs[..i], bs[i], bs[i + 1..];
    assert bs == a + [b] + c;
    PassKeepsUsed(Marked(bs, p));
    UsedAround(a, b, c);
    UsedAround(a, Released(b), c);
    UsedBytesAround(a, b, c);
    UsedBytesAround(a, Released(b), c);
  }

  lemma FreeLive(bs: seq<Block>, lo: int, hi: int, p: int)
    requires Tiles(bs, lo, hi) && p in Live(bs)
    ensures Live(Marked(bs, p)) == Live(bs) - {p}
    ensures Live(Pass(Marked(bs, p))) == Live(bs) - {p}
  {
    hide UsedBlocks, Pass, Tiles, Extents;
    var i := Position(bs, p);
    var a, b, c := bs[..i], bs[i], bs[i + 1..];
    assert bs == a + [b] + c;
    Ordered(bs, lo, hi);
    FreeTiles(bs, lo, hi, p);
    LiveAround(a, b, c, lo, hi, bs);
    LiveAround(a, Released(b), c, lo, hi, Marked(bs, p));
    PassKeepsUsed(Marked(bs, p));
  }

  /** `kfree` on the level of live allocations: exactly the entry of `p` goes away. */
  lemma FreeMeaning(h: Heap, p: int)
    requires Laid(h) && p in h.Live()
    ensures var h' := Free(h, p);
      && Laid(h') && h'.lo == h.lo && h'.hi == h.hi
      && h'.Live() == h.Live() - {p}
      && h'.UsedCount() == h.UsedCount() - 1
      && UsedBytes(h'.blocks) == UsedBytes(h.blocks) - h.Live()[p] - 16
      && h'.inUse == h.inUse - h.Live()[p] - 16
  {
    hide UsedBlocks, Pass, Tiles, Extents;
    FreeTiles(h.blocks, h.lo, h.hi, p);
    FreeUsed(h.blocks, p);
    FreeLive(h.blocks, h.lo, h.hi, p);
    var m := Marked(h.blocks, p);
    assert m[|m| - 1].size == h.blocks[|m| - 1].size;
    Ordered(m, h.lo, h.hi);
    PassLast(m);
  }

  /** One free before a list of at most one pair: the halved runs have at most one pair
      again, and only the run `r.Count() - 1`, around the freed block, can hold it. */
  lemma {:induction false} FreeExcess(r: Gaps, s: Gaps)
    requires r.Join(Cut(0, s)).Excess() <= 1
    ensures var q := r.Join(s.Longer(1)).Halve();
      && q.Excess() <= 1
      && q.Count() == r.Count() + s.Count() - 1
      && (forall u :: 0 <= u < q.Count() && u != r.Count() - 1 ==> q.At(u) <= 1)
      && q.At(r.Count() - 1) == (r.At(r.Count() - 1) + 1 + s.At(0) + 1) / 2 <= 2
      && (q.Excess() == 0 <==> r.At(r.Count() - 1) + s.At(0) < 2)
    decreases r
  {
    if r.Last? {
      assert r.Join(Cut(0, s)) == Cut(r.k, s);
      assert s.Longer(1).Longer(r.k) == s.Longer(r.k + 1);
      FreeExcessHere(r.k, s);
    } else {
      FreeExcess(r.rest, s);
      CutAt(r.k, r.rest.Join(Cut(0, s)));
      CutAt((r.k + 1) / 2, r.rest.Join(s.Longer(1)).Halve());
      CutAt(r.k, r.rest);
    }
  }

  lemma FreeExcessHere(k: nat, s: Gaps)
    requires Cut(k, s).Excess() <= 1
    ensures var q := s.Longer(k + 1).Halve();
      && q.Excess() <= 1
      && q.Count() == s.Count()
      && (forall u :: 0 < u < q.Count() ==> q.At(u) <= 1)
      && q.At(0) == (k + 1 + s.At(0) + 1) / 2 <= 2
      && (q.Excess() == 0 <==> k + s.At(0) < 2)
  {
    if s.Cut? {
      HalveOfOne(s.rest);
      CutAt((s.k + k + 2) / 2, s.rest.Halve());
      assert s.Longer(k + 1).Halve() == Cut((s.k + k + 2) / 2, s.rest.Halve());
    }
  }

  lemma CutAt(k: nat, rest: Gaps)
    ensures Cut(k, rest).Count() == 1 + rest.Count() && Cut(k, rest).At(0) == k
    ensures forall u :: 0 < u <= rest.Count() ==> Cut(k, rest).At(u) == rest.At(u - 1)
    ensures Cut(k, rest).Excess() == (if k > 0 then k - 1 else 0) + rest.Excess()
  {
  }

  lemma {:induction false} HalveOfOne(r: Gaps)
    requires r.Excess() <= 1
    ensures r.Halve().Excess() == 0 && r.Halve().Count() == r.Count()
    ensures forall u :: 0 <= u < r.Halve().Count() ==> r.Halve().At(u) <= 1
    decreases r
  {
    if r.Cut? {
      HalveOfOne(r.rest);
      assert r.Halve() == Cut((r.k + 1) / 2, r.rest.Halve());
    }
  }

  /** The free blocks directly before and behind the block that `kfree(p)` releases. */
  function FreeBefore(h: Heap, p: int): nat
    requires p in h.Live()
  {
    var r := Runs(h.blocks[..Position(h.blocks, p)]);
    r.At(r.Count() - 1)
  }

  function FreeBehind(h: Heap, p: int): nat
    requires p in h.Live()
  {
    Runs(h.blocks[Position(h.blocks, p) + 1..]).At(0)
  }

  /** The coalescing step from a heap with at most one adjacent pair: at most one pair is
      left, only in the free region around the released block (the one behind as many used
      blocks as lay before it), and one is left exactly when at least two free blocks
      adjoined the released block. */
  lemma FreeKeepsOnePair(h: Heap, p: int)
    requires Pairs(h.blocks) <= 1 && p in h.Live()
    ensures var h' := Free(h, p);
      var u := |UsedBlocks(h.blocks[..Position(h.blocks, p)])|;
      && Pairs(h'.blocks) <= 1
      && (forall v :: 0 <= v < Runs(h'.blocks).Count() && v != u ==> Runs(h'.blocks).At(v) <= 1)
      && u < Runs(h'.blocks).Count() && Runs(h'.blocks).At(u) <= 2
      && (Pairs(h'.blocks) == 0 <==> FreeBefore(h, p) + FreeBehind(h, p) < 2)
  {
    var bs, i := h.blocks, Position(h.blocks, p);
    var a, b, c := bs[..i], bs[i], bs[i + 1..];
    assert bs == a + [b] + c;
    RunsAround(a, b, c);
    RunsAround(a, Released(b), c);
    PairsAreExcess(bs);
    PassHalvesRuns(Marked(bs, p));
    PairsAreExcess(Pass(Marked(bs, p)));
    FreeExcess(Runs(a), Runs(c));
    RunsCount(a);
  }

  // ---------- where the surviving pair lies ----------

  lemma {:induction false} JoinAt(r: Gaps, s: Gaps)
    ensures r.Join(s).Count() == r.Count() + s.Count() - 1
    ensures r.Join(s).At(r.Count() - 1) == r.At(r.Count() - 1) + s.At(0)
    decreases r
  {
    if r.Cut? {
      JoinAt(r.rest, s);
    }
  }

  /** An empty last run means that the list is empty or ends with a used block. */
  lemma {:induction false} LastRunEmpty(x: seq<Block>)
    requires Runs(x).At(Runs(x).Count() - 1) == 0
    ensures x == [] || !x[|x| - 1].free
    decreases |x|
  {
    if |x| > 0 {
      var t := Runs(x[1..]);
      assert Runs(x) == if x[0].free then t.Longer(1) else Cut(0, t);
      assert t.At(t.Count() - 1) <= Runs(x).At(Runs(x).Count() - 1);
      LastRunEmpty(x[1..]);
      if |x| == 1 { assert x[1..] == []; }
    }
  }

  /** Two adjacent free blocks lie in a run of at least two; if of exactly two, used blocks or
      the ends of the list enclose them. */
  lemma PairInRun(x: seq<Block>, b: Block, c: Block, y: seq<Block>)
    requires b.free && c.free
    ensures var r, v := Runs(x + [b, c] + y), |UsedBlocks(x)|;
      v < r.Count() && r.At(v) >= 2 && (r.At(v) <= 2 ==> (x == [] || !x[|x| - 1].free) && (y == [] || !y[0].free))
  {
    var t := [b, c] + y;
    assert x + [b, c] + y == x + t;
    assert t[1..] == [c] + y && ([c] + y)[1..] == y;
    RunsConcat(x, t);
    RunsCount(x);
    assert Runs(t) == Runs(y).Longer(1).Longer(1);
    JoinAt(Runs(x), Runs(t));
    if Runs(x).At(Runs(x).Count() - 1) == 0 { LastRunEmpty(x); }
  }

  lemma SameSplit(x: seq<Block>, y: seq<Block>, a: seq<Block>, c: seq<Block>)
    requires x + y == a + c && |x| == |a|
    ensures x == a && y == c
  {
    assert x == (x + y)[..|x|] && a == (a + c)[..|a|];
    assert y == (x + y)[|x|..] && c == (a + c)[|a|..];
  }

  lemma EndsUsed(x: seq<Block>)
    ensures x != [] && !x[|x| - 1].free ==> x[|x| - 1] in UsedBlocks(x)
    ensures x != [] && !x[0].free ==> x[0] in UsedBlocks(x)
  {
    hide UsedBlocks;
    if x != [] {
      var n := |x| - 1;
      assert x == x[..n] + [x[n]] == [x[0]] + x[1..];
      UsedConcat(x[..n], [x[n]]);
      UsedConcat([x[0]], x[1..]);
      UsedOne(x[n]);
      UsedOne(x[0]);
    }
  }

  lemma UsedOne(b: Block)
    ensures UsedBlocks([b]) == if b.free then [] else [b]
  {
    assert [b][1..] == [];
  }

  lemma UsedWithin(bs: seq<Block>, lo: int, hi: int)
    requires Tiles(bs, lo, hi)
    ensures forall u :: u in UsedBlocks(bs) ==> lo <= u.addr && u.End() <= hi
  {
    hide Tiles, UsedBlocks;
    Ordered(bs, lo, hi);
    UsedAreBlocks(bs);
  }

  /** Used blocks of the part in front end below `b`, those of the part behind start above. */
  lemma Enclosed(x: seq<Block>, y: seq<Block>, a: seq<Block>, b: Block, c: seq<Block>, lo: int, hi: int)
    requires Tiles(a + [b] + c, lo, hi) && UsedBlocks(x) == UsedBlocks(a) && UsedBlocks(y) == UsedBlocks(c)
    ensures x != [] && !x[|x| - 1].free ==> x[|x| - 1].End() <= b.addr
    ensures y != [] && !y[0].free ==> b.addr < y[0].addr
  {
    hide UsedBlocks;
    TilesAround(a, b, c, lo, hi);
    UsedWithin(a, lo, b.addr);
    UsedWithin(c, b.End(), hi);
    EndsUsed(x);
    EndsUsed(y);
  }

  /** A pair of adjacent free blocks that survives `kfree(p)` is the one around the header
      just released. */
  lemma SurvivingPair(h: Heap, p: int, k: nat)
    requires Laid(h) && Pairs(h.blocks) <= 1 && p in h.Live()
    requires k + 1 < |Free(h, p).blocks| && Free(h, p).blocks[k].free && Free(h, p).blocks[k + 1].free
    ensures Free(h, p).blocks[k].addr <= p - HEADER < Free(h, p).blocks[k + 1].End()
  {
    hide UsedBlocks, Pass, Tiles, Runs, Pairs, Extents, Free, Marked;
    var i := Position(h.blocks, p);
    var a, b, c := h.blocks[..i], h.blocks[i], h.blocks[i + 1..];
    var r := Free(h, p).blocks;
    var x, y := r[..k], r[k + 2..];
    assert h.blocks == a + [b] + c;
    assert r == x + [r[k], r[k + 1]] + y;
    FreeKeepsOnePair(h, p);
    PairInRun(x, r[k], r[k + 1], y);
    assert |UsedBlocks(x)| == |UsedBlocks(a)|;
    FreeBlocks(h, p);
    UsedAfterFree(h, p);
    UsedBesidePair(x, r[k], r[k + 1], y);
    SameSplit(UsedBlocks(x), UsedBlocks(y), UsedBlocks(a), UsedBlocks(c));
    Enclosed(x, y, a, b, c, h.lo, h.hi);
    FreeTiles(h.blocks, h.lo, h.hi, p);
    PairEnds(r, h.lo, h.hi, k);
    Bounds(h.blocks, h.lo, h.hi);
    Ordered(h.blocks, h.lo, h.hi);
  }

  lemma UsedBesidePair(x: seq<Block>, b: Block, c: Block, y: seq<Block>)
    requires b.free && c.free
    ensures UsedBlocks(x + [b, c] + y) == UsedBlocks(x) + UsedBlocks(y)
  {
    UsedConcat(x + [b, c], y);
    UsedConcat(x, [b, c]);
    assert [b, c][1..] == [c] && [c][1..] == [];
    assert UsedBlocks([b, c]) == UsedBlocks([c]) == [];
    assert UsedBlocks(x) + [] == UsedBlocks(x);
  }

  /** The used blocks after `kfree(p)`: those before and those behind the released one. */
  lemma UsedAfterFree(h: Heap, p: int)
    requires p in h.Live()
    ensures var i := Position(h.blocks, p);
      UsedBlocks(Pass(Marked(h.blocks, p))) == UsedBlocks(h.blocks[..i]) + UsedBlocks(h.blocks[i + 1..])
  {
    hide UsedBlocks, Pass, Extents;
    var i := Position(h.blocks, p);
    PassKeepsUsed(Marked(h.blocks, p));
    UsedAround(h.blocks[..i], Released(h.blocks[i]), h.blocks[i + 1..]);
    assert UsedBlocks(h.blocks[..i]) + [] == UsedBlocks(h.blocks[..i]);
  }

  lemma FreeBlocks(h: Heap, p: int)
    requires p in h.Live()
    ensures Free(h, p).blocks == Pass(Marked(h.blocks, p))
  {
  }

  /** Two adjacent blocks reach from the block before them to the block behind. */
  lemma PairEnds(bs: seq<Block>, lo: int, hi: int, k: nat)
    requires Tiles(bs, lo, hi) && k + 1 < |bs|
    ensures bs[k].addr == if k == 0 then lo else bs[..k][k - 1].End()
    ensures bs[k + 1].End() == if k + 2 == |bs| then hi else bs[k + 2..][0].addr
  {
    if k > 0 { Adjacent(bs, lo, hi, k - 1); } else { TilesSplit(bs, lo, hi, 0); }
    Adjacent(bs, lo, hi, k + 1);
  }

  lemma FreeKeepsInv(h: Heap, p: int)
    requires Inv(h) && p in h.Live()
    ensures Inv(Free(h, p))
  {
    hide Pass, Pairs, UsedBlocks, Footprint, Tiles, Extents, Runs;
    FreeMeaning(h, p);
    FreeKeepsOnePair(h, p);
    ReleaseCounted(h.allocs, h.frees, h.UsedCount());
  }
}
