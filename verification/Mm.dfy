/** The allocator of kernel/src/mm/mm.c over flat memory: headers in front of the payloads,
    linked by address, and the global statistics. Each method is proved to do to memory what
    HeapModel does to the block list, and to leave every protected byte alone. */
module MemoryManager {
  import opened Bytes
  import opened Blocks
  import opened HeapModel
  import opened HeapRuns
  import opened HeapImage

  const MULTIBOOT_INFO_MEMORY := 1
  const PAGE := 4096
  const FALLBACK_MEMORY := 64 * 1024 * 1024

  lemma Multiple(k: int)
    ensures k * ALIGNMENT % ALIGNMENT == 0
  {
  }

  lemma PageArithmetic(a: int, pages: int)
    requires pages == (a + PAGE - 1) / PAGE
    ensures pages * PAGE % ALIGNMENT == 0 && a <= pages * PAGE < a + PAGE
    ensures 0 < a ==> pages >= 1
  {
    var k := 512 * pages;
    Multiple(k);
    assert pages * PAGE == k * ALIGNMENT;
  }

  /** The next page boundary at or above `a`. */
  function PageUp(a: int): (p: int)
    ensures p % ALIGNMENT == 0 && p % 4096 == 0 && a <= p < a + 4096
    ensures 0 < a ==> p >= PAGE
  {
    var pages := (a + PAGE - 1) / PAGE;
    PageArithmetic(a, pages);
    pages * PAGE
  }

  /** The memory size `init_heap` goes by, in bytes. */
  function Available(flags: word, memLower: word, memUpper: word): (bytes: int)
    ensures bytes % ALIGNMENT == 0
    ensures flags % 2 == 1 ==> bytes == (memLower + memUpper) * 1024
    ensures flags % 2 == 0 ==> bytes == 67108864
  {
    if flags % 2 == MULTIBOOT_INFO_MEMORY then
      var kb := memLower + memUpper;
      assert kb * 1024 == kb * 128 * ALIGNMENT;
      kb * 1024
    else FALLBACK_MEMORY
  }

  /** The heap takes its limit or what is left of the memory behind its start. */
  function HeapBytes(limit: int, available: int, start: int): (size: int)
    requires limit % ALIGNMENT == 0 && available % ALIGNMENT == 0 && start % ALIGNMENT == 0
    ensures (start + size) % ALIGNMENT == 0 && size <= limit && size <= available - start
    ensures size == limit || size == available - start
  {
    if limit > available - start then available - start else limit
  }

  class Mm {
    const ram: array<byte>
    const heapLimit: word      // HEAP_SIZE
    var heapStart: word
    var heapEnd: word
    var firstBlock: word
    // mm_stats
    var totalMemory: word
    var heapSize: word
    var inUse: word
    var allocCount: word
    var freeCount: word

    ghost var blocks: seq<Block>

    /** The heap this object keeps in memory. */
    ghost function Model(): Heap
      reads this
    {
      Heap(heapStart, heapEnd, blocks, inUse, allocCount, freeCount)
    }

    ghost function Live(): map<int, int>
      reads this
    {
      Model().Live()
    }

    ghost predicate Valid()
      reads this, ram
    {
      && Full(ram[..])
      && Inv(Model())
      && Headers(ram[..], blocks)
      && firstBlock == Link(blocks, 0)
      && heapSize == heapEnd - heapStart
      && (heapStart == 0 <==> blocks == [])
      && heapLimit > HEADER && heapLimit % ALIGNMENT == 0
    }

    /** The geometry of a valid heap. */
    lemma Layout()
      requires Valid()
      ensures Laid(Model()) && Tiles(blocks, heapStart, heapEnd) && Spread(heapStart, heapEnd, Live())
    {
      LiveSpread(blocks, heapStart, heapEnd);
    }

    /** The state before `mm_init`: no heap. */
    constructor (ram: array<byte>, heapLimit: word)
      requires Full(ram[..]) && heapLimit > HEADER && heapLimit % ALIGNMENT == 0
      ensures Valid() && this.ram == ram && this.heapLimit == heapLimit
      ensures heapStart == 0 && Live() == map[]
    {
      this.ram, this.heapLimit := ram, heapLimit;
      heapStart, heapEnd, firstBlock := 0, 0, 0;
      totalMemory, heapSize, inUse, allocCount, freeCount := 0, 0, 0, 0, 0;
      blocks := [];
    }

    /** `init_heap` with the fields of the multiboot record and the address of `_kernel_end`.
        The heap starts at the next page and is as large as HEAP_SIZE and the memory allow. */
    method InitHeap(flags: word, memLower: word, memUpper: word, kernelEnd: word)
      requires Valid() && heapStart == 0
      requires 0 < kernelEnd && Available(flags, memLower, memUpper) < ADDRESS_SPACE
      requires PageUp(kernelEnd) + HEADER < Available(flags, memLower, memUpper)
      modifies this, ram
      ensures Valid() && Model() == Initial(heapStart, heapEnd) && Live() == map[]
      ensures heapStart == PageUp(kernelEnd) && totalMemory == Available(flags, memLower, memUpper)
      ensures heapSize == HeapBytes(heapLimit, totalMemory, heapStart) && heapEnd == heapStart + heapSize
      ensures heapStart % 4096 == 0 && kernelEnd <= heapStart < kernelEnd + 4096
      ensures totalMemory == if flags % 2 == 1 then (memLower + memUpper) * 1024 else 67108864
      ensures heapSize == if heapLimit <= totalMemory - heapStart then heapLimit else totalMemory - heapStart
      ensures Untouched(old(ram[..]), ram[..], heapStart, heapEnd, map[])
    {
      hide Inv, UsedBlocks, Extents, Headers, Untouched, PageUp, Available, HeapBytes, FirstImage;
      var available := Available(flags, memLower, memUpper);
      heapStart := PageUp(kernelEnd);
      var actual := HeapBytes(heapLimit, available, heapStart);
      heapEnd := heapStart + actual;
      firstBlock := heapStart;
      FirstHeader(actual - HEADER);
      heapSize, totalMemory := actual, available;
      inUse, allocCount, freeCount := 0, 0, 0;

      blocks := Initial(heapStart, heapEnd).blocks;
      InitialInv(heapStart, heapEnd);
      FirstHeaders(old(ram[..]), heapStart, heapEnd);
    }

    method FirstHeader(size: word)
      requires Full(ram[..]) && firstBlock <= ADDRESS_SPACE - HEADER
      modifies ram
      ensures ram[..] == FirstImage(old(ram[..]), firstBlock, size)
    {
      hide PutWord, PutByte;
      StoreWord(ram, firstBlock + SIZE, size);
      StoreWord(ram, firstBlock + NEXT, 0);
      StoreByte(ram, firstBlock + FREE, 1);
      StoreWord(ram, firstBlock + MAGIC_AT, MAGIC);
    }

    /** What `is_valid_pointer` looks at: the range and the magic of the header below `p`. */
    ghost predicate ValidPointer(p: word)
      requires Valid()
      reads this, ram
    {
      p != 0 && heapStart <= p < heapEnd && Word(ram[..], p - HEADER + MAGIC_AT) == MAGIC
    }

    method IsValidPointer(p: word) returns (ok: bool)
      requires Valid()
      ensures ok == ValidPointer(p)
      ensures ok ==> p >= 16 && heapStart <= p < heapEnd
      ensures p >= 16 && heapStart <= p < heapEnd ==> (ok <==> Word(ram[..], p - 4) == 0xDEADBEEF)
      ensures p as int in Live() ==> ok
    {
      if p as int in Live() {
        LiveIsValid(p);
      }
      if p == 0 || p < heapStart || p >= heapEnd {
        return false;
      }
      var magic := LoadWord(ram, p - HEADER + MAGIC_AT);
      return magic == MAGIC;
    }

    /** `is_valid_pointer` accepts every live pointer. */
    lemma LiveIsValid(p: int)
      requires Valid() && p in Live()
      ensures 0 < p < ADDRESS_SPACE && ValidPointer(p)
    {
      var i := Position(blocks, p);
      LiveRange(blocks, heapStart, heapEnd, p);
      LastPtr(blocks, heapStart, heapEnd, i);
      assert HeaderAt(ram[..], blocks, i);
    }

    method Kmalloc(n: word) returns (p: word)
      requires Valid()
      modifies this, ram
      ensures Valid() && (Model(), p as int) == Alloc(old(Model()), n)
      ensures p == 0 ==> Model() == old(Model())
      ensures p != 0 ==>
          p as int !in old(Live()) && p as int in Live() && Live() == old(Live())[p as int := Live()[p as int]]
      ensures p != 0 ==> Align(n) <= Live()[p as int] <= Align(n) + 24
      ensures p == 0 <==> n == 0 || !HasRoom(old(blocks), Align(n))
      ensures p != 0 ==> GrantLaw(old(blocks), Align(n), p, Live()[p as int], blocks)
      ensures Untouched(old(ram[..]), ram[..], heapStart, heapEnd, old(Live()))
      ensures heapStart == old(heapStart) && heapEnd == old(heapEnd) && totalMemory == old(totalMemory)
    {
      hide Word, Tiles, Pairs, UsedBlocks, Extents, Footprint, Carve, CarveImage, Align, BestFit, Granted, Untouched,
           Headers, GrantLaw;
      UntouchedSame(ram[..], heapStart, heapEnd, Live());
      if n == 0 { return 0; }
      if heapStart == 0 { return 0; }
      var s := Align(n);
      Bounds(blocks, heapStart, heapEnd);
      var best := Scan(s);
      if best == 0 { return 0; }
      ghost var i := BestFit(blocks, s, |blocks|);
      ghost var m, h := ram[..], Model();
      CarveHeaders(m, blocks, heapStart, heapEnd, i, s);
      CarveFrame(m, blocks[i], s);
      AllocKeepsInv(h, n);
      AllocMeaning(h, n);
      ghost var h' := Alloc(h, n).0;
      UsedCountBound(h'.blocks, heapStart, heapEnd);
      var size := Grant(best, s, i);
      inUse := inUse + size + HEADER;
      allocCount := (allocCount + 1) % ADDRESS_SPACE;
      blocks := Carve(blocks, i, s);
      CarvedFirst(h.blocks, i, s);
      WriteInFree(m, ram[..], h.blocks, heapStart, heapEnd, i);
      return best + HEADER;
    }

    /** The stores of `kmalloc` into the chosen block: split it if it is large enough, mark
        it used. */
    method Grant(best: word, s: word, ghost i: nat) returns (size: word)
      requires Full(ram[..]) && Headers(ram[..], blocks) && i < |blocks| && best == blocks[i].addr
      requires Fits(blocks[i], s) && blocks[i].End() < ADDRESS_SPACE
      modifies ram
      ensures ram[..] == CarveImage(old(ram[..]), blocks[i], s)
      ensures size == Granted(blocks[i], s).size
    {
      hide Word, PutWord, PutByte, SplitImage;
      assert HeaderAt(ram[..], blocks, i);
      CarveFields(ram[..], blocks[i], s);
      size := LoadWord(ram, best + SIZE);
      var remaining := size - s;
      if remaining >= HEADER + MIN_BLOCK {
        Split(best, s, remaining, blocks[i]);
      }
      StoreByte(ram, best + FREE, 0);
      size := LoadWord(ram, best + SIZE);
    }

    /** The stores that split block `b`: the header of the rest, then the new extent of `b`. */
    method Split(best: word, s: word, remaining: word, ghost b: Block)
      requires Full(ram[..]) && best == b.addr && b.End() < ADDRESS_SPACE
      requires remaining == b.size - s && Splits(b, s)
      modifies ram
      ensures ram[..] == SplitImage(old(ram[..]), b, s)
    {
      hide Word, PutWord, PutByte;
      var newBlock := best + HEADER + s;
      StoreWord(ram, newBlock + SIZE, remaining - HEADER);
      StoreByte(ram, newBlock + FREE, 1);
      var next := LoadWord(ram, best + NEXT);
      StoreWord(ram, newBlock + NEXT, next);
      StoreWord(ram, newBlock + MAGIC_AT, MAGIC);
      StoreWord(ram, best + NEXT, newBlock);
      StoreWord(ram, best + SIZE, s);
    }

    /** The scan of `kmalloc`: the address of the best fitting block, or NULL. */
    method Scan(s: word) returns (best: word)
      requires Full(ram[..]) && Headers(ram[..], blocks) && firstBlock == Link(blocks, 0)
      requires forall i :: 0 <= i < |blocks| ==> blocks[i].addr > 0
      ensures var i := BestFit(blocks, s, |blocks|); best == if i < 0 then 0 else blocks[i].addr
      ensures best == 0 <==> BestFit(blocks, s, |blocks|) < 0
    {
      hide Word;
      var current: word := firstBlock;
      best := 0;
      ghost var i, b := 0, -1;
      while current != 0
        invariant 0 <= i <= |blocks| && current == Link(blocks, i)
        invariant b == BestFit(blocks, s, i) && best == if b < 0 then 0 else blocks[b].addr
        decreases |blocks| - i
      {
        assert HeaderAt(ram[..], blocks, i);
        var free := ram[current + FREE];
        var size := LoadWord(ram, current + SIZE);
        if free != 0 && size >= s {
          if best == 0 {
            best := current;
            b := i;
          } else {
            assert HeaderAt(ram[..], blocks, b);
            var bestSize := LoadWord(ram, best + SIZE);
            if size < bestSize {
              best := current;
              b := i;
            }
          }
        }
        current := LoadWord(ram, current + NEXT);
        i := i + 1;
      }
    }

    method Kfree(p: word)
      requires Valid()
      requires p as int in Live() || !ValidPointer(p)
      modifies this, ram
      ensures Valid()
      ensures Model() == if p as int in old(Live()) then Free(old(Model()), p) else old(Model())
      ensures Untouched(old(ram[..]), ram[..], heapStart, heapEnd, Live())
      ensures heapStart == old(heapStart) && heapEnd == old(heapEnd) && totalMemory == old(totalMemory)
    {
      hide Word, Tiles, Pass, Pairs, UsedBlocks, Extents, Footprint, Marked, Untouched, Headers;
      UntouchedSame(ram[..], heapStart, heapEnd, Live());
      if p as int in Live() {
        LiveIsValid(p);
      }
      if p == 0 {
        return;
      }
      var ok := IsValidPointer(p);
      if !ok { return; }
      ghost var h := Model();
      FreeKeepsInv(h, p);
      FreeMeaning(h, p);
      FreeLive(blocks, heapStart, heapEnd, p);
      FreeTiles(blocks, heapStart, heapEnd, p);
      Mark(p);
      ghost var m := ram[..];
      UntouchedFewer(old(ram[..]), m, heapStart, heapEnd, h.Live(), Live());
      Coalesce();
      UntouchedChain(old(ram[..]), m, ram[..], heapStart, heapEnd, Live());
    }

    /** What `kfree` does before its loop: the block is marked free and taken out of the
        statistics. */
    method Mark(p: word)
      requires Valid() && p as int in Live()
      modifies this`inUse, this`freeCount, this`blocks, ram
      ensures blocks == Marked(old(blocks), p) && firstBlock == Link(blocks, 0)
      ensures inUse as int == old(inUse) - old(Live())[p as int] - HEADER
      ensures freeCount == (old(freeCount) + 1) % ADDRESS_SPACE
      ensures Full(ram[..]) && Headers(ram[..], blocks) && heapStart >= HEADER
      ensures Untouched(old(ram[..]), ram[..], heapStart, heapEnd, old(Live()))
    {
      hide Word, PutWord, PutByte, Tiles, Pass, Pairs, UsedBlocks, Extents, Footprint, Marked, Untouched, Headers,
           Free;
      var block := p - HEADER;
      ghost var h := Model();
      FreeKeepsInv(h, p);
      FreeMeaning(h, p);
      UsedCountBound(Free(h, p).blocks, heapStart, heapEnd);
      MarkHeaders(ram[..], blocks, heapStart, heapEnd, p);
      MarkedLink(blocks, p);
      SizeField(p);
      StoreByte(ram, block + FREE, 1);
      var size := LoadWord(ram, block + SIZE);
      inUse := inUse - (size + HEADER);
      freeCount := (freeCount + 1) % ADDRESS_SPACE;
      blocks := Marked(blocks, p);
    }

    lemma SizeField(p: int)
      requires Valid() && p in Live() && HEADER <= p < ADDRESS_SPACE
      ensures Word(ram[..], p - HEADER + SIZE) == Live()[p]
    {
      assert HeaderAt(ram[..], blocks, Position(blocks, p));
    }

    /** The loop of `kfree`. */
    method Coalesce()
      requires Full(ram[..]) && Headers(ram[..], blocks) && Tiles(blocks, heapStart, heapEnd)
      requires heapStart >= HEADER && firstBlock == Link(blocks, 0)
      modifies ram, this`blocks
      ensures Full(ram[..]) && blocks == Pass(old(blocks)) && Headers(ram[..], blocks)
      ensures firstBlock == Link(blocks, 0)
      ensures Untouched(old(ram[..]), ram[..], heapStart, heapEnd, Blocks.Live(old(blocks)))
    {
      hide Word, Tiles, Pass, UsedBlocks, Extents, Untouched;
      var current: word := firstBlock;
      ghost var i := 0;
      assert blocks[..0] == [] && blocks[0..] == blocks;
      Bounds(blocks, heapStart, heapEnd);
      UntouchedSame(ram[..], heapStart, heapEnd, Blocks.Live(blocks));
      while current != 0
        invariant Full(ram[..]) && Headers(ram[..], blocks) && Tiles(blocks, heapStart, heapEnd)
        invariant 0 <= i <= |blocks| && current == Link(blocks, i)
        invariant firstBlock == Link(blocks, 0)
        invariant blocks[..i] + Pass(blocks[i..]) == Pass(old(blocks))
        invariant UsedBlocks(blocks) == UsedBlocks(old(blocks))
        invariant Untouched(old(ram[..]), ram[..], heapStart, heapEnd, Blocks.Live(old(blocks)))
        invariant forall k :: 0 <= k < |blocks| ==> blocks[k].addr >= HEADER
        decreases |blocks| - i
      {
        ghost var m, bs := ram[..], blocks;
        var merged := MergeNext(current, i);
        UntouchedChain(old(ram[..]), m, ram[..], heapStart, heapEnd, Blocks.Live(old(blocks)));
        if !merged {
          SkipPass(blocks, i);
        }
        Bounds(blocks, heapStart, heapEnd);
        assert HeaderAt(ram[..], blocks, i);
        current := LoadWord(ram, current + NEXT);
        i := i + 1;
      }
      assert blocks[..i] == blocks && blocks[i..] == [];
      EmptyPass();
    }

    /** One step of that loop: a free block swallows a free successor. */
    method MergeNext(current: word, ghost i: nat) returns (merged: bool)
      requires Full(ram[..]) && Headers(ram[..], blocks) && Tiles(blocks, heapStart, heapEnd)
      requires i < |blocks| && current == blocks[i].addr && heapStart >= HEADER
      modifies ram, this`blocks
      ensures merged == (old(blocks)[i].free && i + 1 < |old(blocks)| && old(blocks)[i + 1].free)
      ensures !merged ==> blocks == old(blocks) && ram[..] == old(ram[..])
      ensures merged ==> blocks == Merged(old(blocks), i)
      ensures Full(ram[..]) && Headers(ram[..], blocks) && Tiles(blocks, heapStart, heapEnd)
      ensures UsedBlocks(blocks) == UsedBlocks(old(blocks))
      ensures Untouched(old(ram[..]), ram[..], heapStart, heapEnd, Blocks.Live(old(blocks)))
      ensures merged ==> blocks[..i + 1] + Pass(blocks[i + 1..]) == old(blocks)[..i] + Pass(old(blocks)[i..])
    {
      hide Word, PutWord, PutByte, Tiles, UsedBlocks, Extents, Pass, Untouched, Merged;
      UntouchedSame(ram[..], heapStart, heapEnd, Blocks.Live(blocks));
      Bounds(blocks, heapStart, heapEnd);
      assert HeaderAt(ram[..], blocks, i);
      var free := ram[current + FREE];
      var next := LoadWord(ram, current + NEXT);
      if free == 0 || next == 0 { return false; }
      assert HeaderAt(ram[..], blocks, i + 1);
      var nextFree := ram[next + FREE];
      if nextFree == 0 { return false; }
      MergeBounds(blocks, heapStart, heapEnd, i);
      MergeHeaders(ram[..], blocks, heapStart, heapEnd, i);
      MergeTiles(blocks, heapStart, heapEnd, i);
      MergeUsed(blocks, i);
      MergePass(blocks, i);
      var size := LoadWord(ram, current + SIZE);
      var nextSize := LoadWord(ram, next + SIZE);
      StoreWord(ram, current + SIZE, size + HEADER + nextSize);
      var after := LoadWord(ram, next + NEXT);
      StoreWord(ram, current + NEXT, after);
      blocks := Merged(blocks, i);
      return true;
    }
  }
}
