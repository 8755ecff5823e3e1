/** `load_elf_module` of kernel/src/modules/loader.c: every PT_LOAD segment of a 32-bit ELF
    image gets a heap block with its file bytes and zeros behind them. */
module Loader {
  import opened Bytes
  import opened Blocks
  import opened HeapModel
  import opened HeapRuns
  import opened HeapTheorems
  import opened HeapImage
  import opened MemoryManager

  // elf_header_t
  const ELF_MAGIC := 0x464C457F
  const E_TYPE := 16
  const E_MACHINE := 18
  const E_ENTRY := 24
  const E_PHOFF := 28
  const E_PHNUM := 44
  const EHDR_SIZE := 52
  const EXECUTABLE := 2
  const I386 := 3

  // elf_program_header_t
  const P_TYPE := 0
  const P_OFFSET := 4
  const P_FILESZ := 16
  const P_MEMSZ := 20
  const PHDR_SIZE := 32
  const PT_LOAD := 1

  datatype Segment = Segment(offset: word, filesz: word, memsz: word)

  /** The three checks on the file header. */
  ghost predicate HeaderOk(m: Memory, base: int)
    requires 0 <= base <= |m| - EHDR_SIZE
  {
    Word(m, base) == ELF_MAGIC && Half(m, base + E_TYPE) == EXECUTABLE && Half(m, base + E_MACHINE) == I386
  }

  ghost function SegmentAt(m: Memory, a: int): Segment
    requires 0 <= a <= |m| - PHDR_SIZE
  {
    Segment(Word(m, a + P_OFFSET), Word(m, a + P_FILESZ), Word(m, a + P_MEMSZ))
  }

  /** The PT_LOAD entries among the first `n` program headers at `table`, in order. */
  ghost function Segments(m: Memory, table: int, n: nat): seq<Segment>
    requires 0 <= table && table + PHDR_SIZE * n <= |m|
  {
    if n == 0 then []
    else
      var a := table + PHDR_SIZE * (n - 1);
      Segments(m, table, n - 1) + (if Word(m, a + P_TYPE) == PT_LOAD then [SegmentAt(m, a)] else [])
  }

  /** What the loader relies on: the tables and the file bytes lie inside the image of `len`
      bytes, no segment is longer in the file than in memory, and sizes can be aligned. */
  ghost predicate ImageOk(m: Memory, base: int, len: int) {
    && Full(m) && 0 < base && EHDR_SIZE <= len && base + len < ADDRESS_SPACE
    && (HeaderOk(m, base) ==>
          var phoff, n := Word(m, base + E_PHOFF), Half(m, base + E_PHNUM);
          && phoff + PHDR_SIZE * n <= len
          && forall s :: s in Segments(m, base + phoff, n) ==> SegmentFits(s, len))
  }

  /** The segments to load: none if the file header is turned down. */
  ghost function ImageSegments(m: Memory, base: int, len: int): (ss: seq<Segment>)
    requires ImageOk(m, base, len)
    ensures forall s :: s in ss ==> SegmentFits(s, len)
  {
    if HeaderOk(m, base) then Segments(m, base + Word(m, base + E_PHOFF), Half(m, base + E_PHNUM)) else []
  }

  predicate SegmentFits(s: Segment, len: int) {
    s.offset + s.filesz <= len && s.filesz <= s.memsz <= 0xFFFF_FFF8
  }

  /** The bytes a loaded segment must have: its part of the file, then zeros. */
  function Wanted(image: seq<byte>, s: Segment): (bs: seq<byte>)
    requires SegmentFits(s, |image|)
    ensures |bs| == s.memsz
  {
    image[s.offset..s.offset + s.filesz] + Bytes.Fill(s.memsz - s.filesz, 0)
  }

  ghost predicate LoadedAt(m: Memory, image: seq<byte>, s: Segment, p: int) {
    SegmentFits(s, |image|) && 0 < p && p + s.memsz <= |m| && m[p..p + s.memsz] == Wanted(image, s)
  }

  /** Segment `k` has its own live block, which was not live before. */
  ghost predicate Placed(m: Memory, live: map<int, int>, before: map<int, int>, image: seq<byte>, s: Segment, p: int) {
    p in live && p !in before && live[p] >= s.memsz && LoadedAt(m, image, s, p)
  }

  /** All segments are placed, each in a block of its own. */
  ghost predicate AllPlaced(m: Memory, live: map<int, int>, before: map<int, int>, image: seq<byte>,
                            ss: seq<Segment>, ps: seq<int>) {
    && |ps| == |ss|
    && (forall k :: 0 <= k < |ps| ==> Placed(m, live, before, image, ss[k], ps[k]))
    && (forall j, k :: 0 <= j < k < |ps| ==> ps[j] != ps[k])
  }

  /** `kmalloc` for one size after the other; the pointers in the same order. */
  function AllocSeq(h: Heap, sizes: seq<word>): (Heap, seq<int>)
    decreases |sizes|
  {
    if |sizes| == 0 then (h, [])
    else
      var (h1, ps) := AllocSeq(h, sizes[..|sizes| - 1]);
      var (h2, p) := Alloc(h1, sizes[|sizes| - 1]);
      (h2, ps + [p])
  }

  function Sizes(ss: seq<Segment>): seq<word> {
    seq(|ss|, k requires 0 <= k < |ss| => ss[k].memsz)
  }

  /** The memory size of segment `n`; 0 if there is none. */
  function SizeOf(ss: seq<Segment>, n: nat): word {
    if n < |ss| then ss[n].memsz else 0
  }

  /** What decides over a load before it starts: the file header is accepted, and the heap
      grants one segment after the other. */
  ghost predicate Loads(h: Heap, m: Memory, base: int, len: int)
    requires ImageOk(m, base, len)
  {
    HeaderOk(m, base) && 0 !in AllocSeq(h, Sizes(ImageSegments(m, base, len))).1
  }

  /** The grants before the first NULL. */
  function BeforeNull(ps: seq<int>): seq<int> {
    if |ps| == 0 || ps[0] == 0 then [] else [ps[0]] + BeforeNull(ps[1..])
  }

  lemma {:induction false} BeforeNullIs(ps: seq<int>, n: nat)
    requires n <= |ps| && 0 !in ps[..n] && (n < |ps| ==> ps[n] == 0)
    ensures BeforeNull(ps) == ps[..n] && (0 in ps <==> n < |ps|)
    decreases n
  {
    if n > 0 {
      assert ps[0] == ps[..n][0];
      assert ps[1..][..n - 1] == ps[..n][1..];
      BeforeNullIs(ps[1..], n - 1);
      assert ps == [ps[0]] + ps[1..];
    }
  }

  /** The grants of a part of the sizes are a part of the grants. */
  lemma {:induction false} AllocSeqPrefix(h: Heap, sizes: seq<word>, n: nat)
    requires n <= |sizes|
    ensures |AllocSeq(h, sizes).1| == |sizes| && AllocSeq(h, sizes[..n]).1 == AllocSeq(h, sizes).1[..n]
    ensures n < |sizes| ==> AllocSeq(h, sizes).1[n] == Alloc(AllocSeq(h, sizes[..n]).0, sizes[n]).1
    decreases |sizes|
  {
    hide Alloc;
    if |sizes| > 0 {
      var front := sizes[..|sizes| - 1];
      AllocSeqPrefix(h, front, if n < |sizes| then n else n - 1);
      if n < |sizes| {
        assert front[..n] == sizes[..n];
      } else {
        assert sizes[..n] == sizes;
      }
    }
  }

  /** A load that got `n` grants and then a NULL, or all: how this was decided by the heap
      and the sizes alone. */
  lemma LoadDecided(h: Heap, ss: seq<Segment>, n: nat)
    requires n <= |ss| && 0 !in AllocSeq(h, Sizes(ss[..n])).1
    requires n < |ss| ==> Alloc(AllocSeq(h, Sizes(ss[..n])).0, ss[n].memsz).1 == 0
    ensures 0 in AllocSeq(h, Sizes(ss)).1 <==> n < |ss|
    ensures BeforeNull(AllocSeq(h, Sizes(ss)).1) == AllocSeq(h, Sizes(ss[..n])).1
  {
    hide Alloc, AllocSeq;
    assert Sizes(ss)[..n] == Sizes(ss[..n]);
    AllocSeqPrefix(h, Sizes(ss), n);
    BeforeNullIs(AllocSeq(h, Sizes(ss)).1, n);
  }

  lemma AllocSeqStep(h: Heap, ss: seq<Segment>, s: Segment)
    ensures var (h1, ps) := AllocSeq(h, Sizes(ss)); var (h2, p) := Alloc(h1, s.memsz);
            AllocSeq(h, Sizes(ss + [s])) == (h2, ps + [p])
  {
    var all := Sizes(ss + [s]);
    assert all[..|all| - 1] == Sizes(ss);
  }

  // ---------- room for a load ----------

  /** The most that `kmalloc` can take from the heap for these sizes: alignment, a header, and
      up to 24 bytes that are too little to split off. */
  function Demand(sizes: seq<word>): int {
    if |sizes| == 0 then 0
    else Demand(sizes[..|sizes| - 1]) + Align(sizes[|sizes| - 1]) + HEADER + 24
  }

  /** So many bytes may be free when `kmalloc(n)` fails with `used` live blocks, and no more. */
  function Needed(used: nat, n: word): int {
    (used + 2) * (Align(n) + 8)
  }

  /** Whatever the earlier grants take, enough is free for each size. */
  ghost predicate Roomy(h: Heap, sizes: seq<word>) {
    forall k :: 0 <= k < |sizes| ==>
        sizes[k] > 0 && h.hi - h.lo - h.inUse - Demand(sizes[..k]) > Needed(h.UsedCount() + k, sizes[k])
  }

  lemma RoomyFront(h: Heap, sizes: seq<word>)
    requires Roomy(h, sizes) && |sizes| > 0
    ensures var n := |sizes| - 1;
      && Roomy(h, sizes[..n]) && sizes[n] > 0
      && h.hi - h.lo - h.inUse - Demand(sizes[..n]) > Needed(h.UsedCount() + n, sizes[n])
  {
    hide Needed, Demand;
    var front := sizes[..|sizes| - 1];
    forall k | 0 <= k < |front|
      ensures front[k] == sizes[k] && front[..k] == sizes[..k]
    {
    }
  }

  /** With so much free memory, by the statistics alone, all grants succeed. */
  lemma {:induction false} RoomSuffices(h: Heap, sizes: seq<word>)
    requires Inv(h) && Roomy(h, sizes)
    ensures var (h', ps) := AllocSeq(h, sizes);
      && 0 !in ps && Inv(h') && h'.lo == h.lo && h'.hi == h.hi
      && h'.inUse <= h.inUse + Demand(sizes) && h'.UsedCount() == h.UsedCount() + |sizes|
    decreases |sizes|
  {
    hide Inv, Alloc, Align, Tiles, UsedBlocks, Extents, Needed, Roomy;
    if |sizes| > 0 {
      var n := |sizes| - 1;
      RoomyFront(h, sizes);
      RoomSuffices(h, sizes[..n]);
      RoomForOne(AllocSeq(h, sizes[..n]).0, sizes[n]);
    }
  }

  lemma RoomForOne(h: Heap, n: word)
    requires Inv(h) && n > 0 && h.hi - h.lo - h.inUse > Needed(h.UsedCount(), n)
    ensures var (h', p) := Alloc(h, n);
      && p != 0 && Inv(h') && h'.lo == h.lo && h'.hi == h.hi
      && h'.inUse <= h.inUse + Align(n) + HEADER + 24 && h'.UsedCount() == h.UsedCount() + 1
  {
    hide Alloc, Align, Tiles, UsedBlocks, Extents, Pairs, GrantLaw;
    AllocMeaning(h, n);
    AllocKeepsInv(h, n);
    if Alloc(h, n).1 == 0 { NullMeansFull(h, n); }
  }

  /** An accepted image with so much free memory is loaded. */
  lemma LoadsWithRoom(h: Heap, m: Memory, base: int, len: int)
    requires Inv(h) && ImageOk(m, base, len) && HeaderOk(m, base) && Roomy(h, Sizes(ImageSegments(m, base, len)))
    ensures Loads(h, m, base, len)
  {
    hide Inv, ImageOk, HeaderOk, Roomy, ImageSegments, AllocSeq, Sizes;
    RoomSuffices(h, Sizes(ImageSegments(m, base, len)));
  }

  /** Placed segments stay placed when their bytes and blocks stay. */
  lemma PlacedKept(m: Memory, n: Memory, live: map<int, int>, after: map<int, int>, before: map<int, int>,
                   image: seq<byte>, ss: seq<Segment>, ps: seq<int>)
    requires AllPlaced(m, live, before, image, ss, ps) && |m| == |n|
    requires forall p :: p in ps && p in live ==> p in after && after[p] == live[p]
    requires forall p, a :: p in ps && p in live && p <= a < p + live[p] && 0 <= a < |m| ==> n[a] == m[a]
    ensures AllPlaced(n, after, before, image, ss, ps)
  {
    forall k | 0 <= k < |ps|
      ensures Placed(n, after, before, image, ss[k], ps[k])
    {
      assert Placed(m, live, before, image, ss[k], ps[k]);
      assert ps[k] in ps;
      assert n[ps[k]..ps[k] + ss[k].memsz] == m[ps[k]..ps[k] + ss[k].memsz];
    }
  }

  lemma PlacedMore(m: Memory, live: map<int, int>, before: map<int, int>, image: seq<byte>, ss: seq<Segment>,
                   ps: seq<int>, s: Segment, p: int)
    requires AllPlaced(m, live, before, image, ss, ps) && Placed(m, live, before, image, s, p) && p !in ps
    ensures AllPlaced(m, live, before, image, ss + [s], ps + [p])
  {
  }

  /** The image as the caller handed it over is still there. */
  lemma ImageStays(m: Memory, n: Memory, lo: int, hi: int, live: map<int, int>, base: int, len: int)
    requires Untouched(m, n, lo, hi, live) && 0 <= base && 0 <= len && base + len <= |m|
    requires forall a :: base <= a < base + len ==> Protected(lo, hi, live, a)
    ensures m[base..base + len] == n[base..base + len]
    ensures forall a :: base <= a <= base + len - 4 ==> Word(n, a) == Word(m, a)
    ensures forall a :: base <= a <= base + len - 2 ==> Half(n, a) == Half(m, a)
  {
    assert forall a :: base <= a < base + len ==> n[a] == m[a];
    forall a | base <= a <= base + len - 4
      ensures Word(n, a) == Word(m, a)
    {
      SameWord(m, n, a);
    }
  }

  /** `kmalloc(0)` is NULL. */
  lemma NothingForNothing(h: Heap)
    ensures Alloc(h, 0) == (h, 0)
  {
  }

  /** One PT_LOAD entry: a block, the file bytes, the zeros. */
  method LoadSegment(mm: Mm, base: word, s: Segment, ghost len: int) returns (p: word)
    requires mm.Valid() && 0 < base && base + len < ADDRESS_SPACE && SegmentFits(s, len)
    requires forall a :: base <= a < base + len ==> Protected(mm.heapStart, mm.heapEnd, mm.Live(), a)
    modifies mm, mm.ram
    ensures mm.Valid() && mm.heapStart == old(mm.heapStart) && mm.heapEnd == old(mm.heapEnd)
    ensures (mm.Model(), p as int) == Alloc(old(mm.Model()), s.memsz)
    ensures p == 0 ==> mm.Model() == old(mm.Model())
    ensures p != 0 ==> s.memsz > 0 && Placed(mm.ram[..], mm.Live(), old(mm.Live()), old(mm.ram[base..base + len]), s, p)
    ensures p != 0 ==> p as int !in old(mm.Live()) && mm.Live() == old(mm.Live())[p as int := mm.Live()[p as int]]
    ensures Untouched(old(mm.ram[..]), mm.ram[..], mm.heapStart, mm.heapEnd, old(mm.Live()))
  {
    hide Inv, Headers, Tiles, UsedBlocks, Extents, Alloc, Untouched, Protected, Word, LoadedAt, GrantLaw, HasRoom;
    ghost var m0, live0, lo, hi := mm.ram[..], mm.Live(), mm.heapStart, mm.heapEnd;
    NothingForNothing(mm.Model());
    p := mm.Kmalloc(s.memsz);
    if p == 0 { return; }
    ghost var m1, live := mm.ram[..], mm.Live();
    mm.Layout();
    ImageStays(m0, m1, lo, hi, live0, base, len);
    SourceApart(lo, hi, live0, live, p, base, len);
    FillSegment(mm.ram, base, s, len, p);
    ghost var m2 := mm.ram[..];
    PayloadWrite(m1, m2, mm.blocks, lo, hi, p);
    GrantWrite(m1, m2, lo, hi, live0, live, p);
    UntouchedChain(m0, m1, m2, lo, hi, live0);
  }

  /** The copy and the zero fill. */
  method FillSegment(ram: array<byte>, base: word, s: Segment, ghost len: int, p: word)
    requires Full(ram[..]) && 0 < p && p + s.memsz < ADDRESS_SPACE && base + len < ADDRESS_SPACE && SegmentFits(s, len)
    requires s.memsz == 0 || len == 0 || base + len <= p || p + s.memsz <= base
    modifies ram
    ensures Full(ram[..])
    ensures LoadedAt(ram[..], old(ram[..])[base..base + len], s, p)
    ensures forall a :: 0 <= a < ADDRESS_SPACE && !(p <= a < p + s.memsz) ==> ram[..][a] == old(ram[..])[a]
  {
    hide PutBytes, LoadedAt, Bytes.Fill, Word;
    ghost var m := ram[..];
    ghost var file := m[base + s.offset..base + s.offset + s.filesz];
    Memcpy(ram, p, base + s.offset, s.filesz);
    assert ram[..] == PutBytes(m, p, file);
    if s.memsz > s.filesz {
      Memset(ram, p + s.filesz, 0, s.memsz - s.filesz);
    }
    SegmentBytes(m, ram[..], m[base..base + len], base, s, p);
  }

  lemma SliceOfSlice(m: Memory, base: int, len: int, offset: int, n: int)
    requires 0 <= base && 0 <= offset && 0 <= n && offset + n <= len && base + len <= |m|
    ensures m[base..base + len][offset..offset + n] == m[base + offset..base + offset + n]
  {
    var x, y := m[base..base + len][offset..offset + n], m[base + offset..base + offset + n];
    assert |x| == |y| && forall k :: 0 <= k < n ==> x[k] == m[base + offset + k] == y[k];
    assert x == y;
  }

  lemma SegmentBytes(m: Memory, n: Memory, image: seq<byte>, base: int, s: Segment, p: int)
    requires SegmentFits(s, |image|) && 0 <= base && base + |image| <= |m| && image == m[base..base + |image|]
    requires 0 < p && p + s.memsz <= |m|
    requires var m1 := PutBytes(m, p, m[base + s.offset..base + s.offset + s.filesz]);
             n == if s.memsz > s.filesz then PutBytes(m1, p + s.filesz, Bytes.Fill(s.memsz - s.filesz, 0)) else m1
    ensures |n| == |m| && LoadedAt(n, image, s, p)
    ensures forall a :: 0 <= a < |m| && !(p <= a < p + s.memsz) ==> n[a] == m[a]
  {
    hide PutBytes;
    var file := m[base + s.offset..base + s.offset + s.filesz];
    var m1 := PutBytes(m, p, file);
    SliceOfSlice(m, base, |image|, s.offset, s.filesz);
    forall k | 0 <= k < s.memsz
      ensures n[p..p + s.memsz][k] == Wanted(image, s)[k]
    {
      assert n[p..p + s.memsz][k] == n[p + k];
      if k < s.filesz {
        assert m1[p..p + s.filesz][k] == m1[p + k] == n[p + k];
      } else {
        assert n[p + s.filesz..p + s.memsz][k - s.filesz] == n[p + k];
      }
    }
    assert n[p..p + s.memsz] == Wanted(image, s);
  }

  lemma SourceApart(lo: int, hi: int, live: map<int, int>, after: map<int, int>, p: int, base: int, len: int)
    requires p !in live && p in after && after == live[p := after[p]] && Spread(lo, hi, after)
    requires forall a :: base <= a < base + len ==> Protected(lo, hi, live, a)
    ensures len <= 0 || after[p] <= 0 || base + len <= p || p + after[p] <= base
  {
    if !(len <= 0 || after[p] <= 0 || base + len <= p || p + after[p] <= base) {
      GrantExposed(lo, hi, live, after, p, if base < p then p else base);
    }
  }

  /** Filling a fresh grant touches nothing that was protected before it. */
  lemma GrantWrite(m: Memory, n: Memory, lo: int, hi: int, live: map<int, int>, after: map<int, int>, p: int)
    requires p !in live && p in after && after == live[p := after[p]] && Spread(lo, hi, after) && |m| == |n|
    requires forall a :: 0 <= a < |m| && !(p <= a < p + after[p]) ==> n[a] == m[a]
    ensures Untouched(m, n, lo, hi, live)
  {
    forall a | 0 <= a < |m| && Protected(lo, hi, live, a)
      ensures n[a] == m[a]
    {
      if p <= a < p + after[p] { GrantExposed(lo, hi, live, after, p, a); }
    }
  }

  /** Fewer headers give fewer segments. */
  lemma {:induction false} SegmentsPrefix(m: Memory, table: int, k: nat, n: nat)
    requires 0 <= table && table + PHDR_SIZE * n <= |m| && k <= n
    ensures forall s :: s in Segments(m, table, k) ==> s in Segments(m, table, n)
    ensures |Segments(m, table, k)| <= |Segments(m, table, n)|
    ensures Segments(m, table, n)[..|Segments(m, table, k)|] == Segments(m, table, k)
    decreases n
  {
    if k < n {
      SegmentsPrefix(m, table, k, n - 1);
    }
  }

  // ---------- what a load must do, program header by program header ----------

  // Stated on the image and in the numbers of the ELF format, without the functions above.

  /** An i386 executable. */
  ghost predicate Accepted(m: Memory, base: int)
    requires 0 <= base <= |m| - 52
  {
    Word(m, base) == 0x464C457F && Half(m, base + 16) == 2 && Half(m, base + 18) == 3
  }

  /** The address of program header `j`. */
  function HeaderAddress(m: Memory, base: int, j: int): int
    requires 0 <= base <= |m| - 52
  {
    base + Word(m, base + 28) + 32 * j
  }

  /** A PT_LOAD header at `a` has the new block `p` with its bytes of the file, then zeros; any
      other header has none. `m0` is memory before the load, `m` after it. */
  ghost predicate HeaderLoaded(m0: Memory, base: int, a: int, m: Memory, before: map<int, int>, live: map<int, int>,
                               p: int)
    requires 0 <= base && 0 <= a <= |m0| - 32
  {
    if Word(m0, a) == 1 then
      var offset, filesz, memsz := Word(m0, a + 4), Word(m0, a + 16), Word(m0, a + 20);
      && p in live && p !in before && 0 < memsz <= live[p] && filesz <= memsz
      && 0 < p && p + memsz <= |m| && base + offset + filesz <= |m0|
      && m[p..p + filesz] == m0[base + offset..base + offset + filesz]
      && (forall b :: p + filesz <= b < p + memsz ==> m[b] == 0)
    else p == 0
  }

  /** The first |at| headers have been dealt with: each PT_LOAD header has a block of its own,
      and there are no other new blocks. */
  ghost predicate HeadersLoaded(m0: Memory, base: int, m: Memory, before: map<int, int>, live: map<int, int>,
                                at: seq<int>)
    requires 0 <= base <= |m0| - 52
  {
    && HeaderAddress(m0, base, |at|) <= |m0|
    && (forall j :: 0 <= j < |at| ==> HeaderLoaded(m0, base, HeaderAddress(m0, base, j), m, before, live, at[j]))
    && (forall j, k :: 0 <= j < k < |at| && at[j] != 0 ==> at[j] != at[k])
    && (forall p :: p in live <==> p in before || (p != 0 && p in at))
  }

  /** The header at `a` asks for nothing, or for more than any free block has. */
  ghost predicate TurnedAway(m: Memory, a: int, bs: seq<Block>) {
    && 0 <= a <= |m| - 32 && Word(m, a) == 1
    && (Word(m, a + 20) == 0 || !HasRoom(bs, (Word(m, a + 20) + 7) / 8 * 8))
  }

  /** The whole law: memory and heap are `m0` and `h0` before the load, `m` and `h` after it. */
  ghost predicate LoadLaw(m0: Memory, base: int, h0: Heap, m: Memory, h: Heap, entry: word, ok: bool, at: seq<int>)
    requires 0 <= base <= |m0| - 52
  {
    if Accepted(m0, base) then
      && HeadersLoaded(m0, base, m, h0.Live(), h.Live(), at)
      && |at| <= Half(m0, base + 44) && (ok <==> |at| == Half(m0, base + 44))
      && (ok ==> entry == Word(m0, base + 24))
      && (!ok ==> entry == 0 && TurnedAway(m0, HeaderAddress(m0, base, |at|), h.blocks))
    else
      !ok && entry == 0 && at == [] && h == h0
  }

  /** The block of each of the first `n` headers at `table`, 0 for those that need none. */
  ghost function At(m: Memory, table: int, n: nat, ps: seq<int>): (at: seq<int>)
    requires 0 <= table && table + PHDR_SIZE * n <= |m| && |Segments(m, table, n)| <= |ps|
    ensures |at| == n
  {
    if n == 0 then []
    else
      At(m, table, n - 1, ps)
      + [if Word(m, table + PHDR_SIZE * (n - 1) + P_TYPE) == PT_LOAD then ps[|Segments(m, table, n - 1)|] else 0]
  }

  lemma {:induction false} AtIndex(m: Memory, table: int, n: nat, ps: seq<int>, j: nat)
    requires 0 <= table && table + PHDR_SIZE * n <= |m| && |Segments(m, table, n)| <= |ps| && j < n
    ensures |Segments(m, table, j)| <= |Segments(m, table, n)|
    ensures var a := table + PHDR_SIZE * j;
      if Word(m, a + P_TYPE) == PT_LOAD then
        && |Segments(m, table, j)| < |Segments(m, table, n)|
        && Segments(m, table, n)[|Segments(m, table, j)|] == SegmentAt(m, a)
        && At(m, table, n, ps)[j] == ps[|Segments(m, table, j)|]
      else At(m, table, n, ps)[j] == 0
    decreases n
  {
    hide Word, SegmentAt;
    if j < n - 1 {
      AtIndex(m, table, n - 1, ps, j);
    }
  }

  /** Later headers have later segments. */
  lemma {:induction false} AtLater(m: Memory, table: int, j: nat, k: nat)
    requires 0 <= table && table + PHDR_SIZE * k <= |m| && j < k
    requires Word(m, table + PHDR_SIZE * j + P_TYPE) == PT_LOAD
    ensures |Segments(m, table, j)| < |Segments(m, table, k)|
    decreases k
  {
    hide Word, SegmentAt;
    if j < k - 1 {
      AtLater(m, table, j, k - 1);
    }
  }

  lemma {:induction false} AtMembers(m: Memory, table: int, n: nat, ps: seq<int>, p: int)
    requires 0 <= table && table + PHDR_SIZE * n <= |m| && |Segments(m, table, n)| <= |ps| && p != 0
    ensures p in At(m, table, n, ps) <==> p in ps[..|Segments(m, table, n)|]
    decreases n
  {
    hide Word, SegmentAt;
    if n > 0 {
      AtMembers(m, table, n - 1, ps, p);
      var k := |Segments(m, table, n - 1)|;
      assert k < |ps| ==> ps[..k + 1] == ps[..k] + [ps[k]];
    }
  }

  lemma {:induction false} AllocSeqLive(h: Heap, sizes: seq<word>, p: int)
    requires Inv(h) && 0 !in AllocSeq(h, sizes).1
    ensures Inv(AllocSeq(h, sizes).0)
    ensures p in AllocSeq(h, sizes).0.Live() <==> p in h.Live() || p in AllocSeq(h, sizes).1
    decreases |sizes|
  {
    hide Inv, Alloc, UsedBlocks, Extents, GrantLaw;
    if |sizes| > 0 {
      var n := |sizes| - 1;
      var (h1, qs) := AllocSeq(h, sizes[..n]);
      var (h2, q) := Alloc(h1, sizes[n]);
      assert AllocSeq(h, sizes).1 == qs + [q];
      AllocSeqLive(h, sizes[..n], p);
      InvIsLaid(h1);
      AllocKeepsInv(h1, sizes[n]);
      AllocMeaning(h1, sizes[n]);
    }
  }

  lemma InvIsLaid(h: Heap)
    requires Inv(h)
    ensures Laid(h)
  {
  }

  lemma HeaderDone(m0: Memory, base: int, len: int, a: int, m: Memory, before: map<int, int>, live: map<int, int>,
                   p: int)
    requires 0 <= base && 0 <= len && base + len <= |m0| && 0 <= a <= |m0| - PHDR_SIZE
    requires Word(m0, a + P_TYPE) == PT_LOAD && SegmentAt(m0, a).memsz > 0
    requires Placed(m, live, before, m0[base..base + len], SegmentAt(m0, a), p)
    ensures HeaderLoaded(m0, base, a, m, before, live, p)
  {
    hide Word;
    var image, s := m0[base..base + len], SegmentAt(m0, a);
    var all := m[p..p + s.memsz];
    SliceOfSlice(m0, base, len, s.offset, s.filesz);
    assert all[..s.filesz] == m[p..p + s.filesz];
    assert Wanted(image, s)[..s.filesz] == image[s.offset..s.offset + s.filesz];
    forall b | p + s.filesz <= b < p + s.memsz
      ensures m[b] == 0
    {
      assert all[b - p] == m[b];
    }
  }

  lemma HeadersDone(h0: Heap, h: Heap, m0: Memory, base: int, len: int, n: nat, m: Memory, ps: seq<int>)
    requires Inv(h0) && 0 <= base && 52 <= len && base + len <= |m0|
    requires HeaderAddress(m0, base, n) <= base + len
    requires Progress(h0, h, m, m0[base..base + len], Segments(m0, HeaderAddress(m0, base, 0), n), ps)
    ensures HeadersLoaded(m0, base, m, h0.Live(), h.Live(), At(m0, HeaderAddress(m0, base, 0), n, ps))
  {
    hide Inv, Word, SegmentAt, AllocSeq, Sizes, UsedBlocks, Extents, Placed, HeaderLoaded, Segments, At;
    var table := HeaderAddress(m0, base, 0);
    var ss, at := Segments(m0, table, n), At(m0, table, n, ps);
    var image, before, live := m0[base..base + len], h0.Live(), h.Live();
    PlacedNonNull(m, live, before, image, ss, ps);
    forall j | 0 <= j < n
      ensures HeaderLoaded(m0, base, HeaderAddress(m0, base, j), m, before, live, at[j])
    {
      AtIndex(m0, table, n, ps, j);
      var a, k := table + PHDR_SIZE * j, |Segments(m0, table, j)|;
      if Word(m0, a + P_TYPE) == PT_LOAD {
        assert ss[k] in ss && Placed(m, live, before, image, ss[k], ps[k]);
        HeaderDone(m0, base, len, a, m, before, live, ps[k]);
      } else {
        NoHeader(m0, base, a, m, before, live);
      }
    }
    forall j, k | 0 <= j < k < n && at[j] != 0
      ensures at[j] != at[k]
    {
      AtIndex(m0, table, n, ps, j);
      AtIndex(m0, table, n, ps, k);
      if at[k] != 0 { AtLater(m0, table, j, k); }
    }
    forall p
      ensures p in live <==> p in before || (p != 0 && p in at)
    {
      AllocSeqLive(h0, Sizes(ss), p);
      assert ps[..|ss|] == ps;
      if p != 0 { AtMembers(m0, table, n, ps, p); } else { NullNotLive(h0); }
    }
  }

  lemma NullNotLive(h: Heap)
    requires Inv(h)
    ensures 0 !in h.Live()
  {
    if 0 in h.Live() { LiveRange(h.blocks, h.lo, h.hi, 0); }
  }

  lemma NoHeader(m0: Memory, base: int, a: int, m: Memory, before: map<int, int>, live: map<int, int>)
    requires 0 <= base && 0 <= a <= |m0| - PHDR_SIZE && Word(m0, a + P_TYPE) != PT_LOAD
    ensures HeaderLoaded(m0, base, a, m, before, live, 0)
  {
  }

  lemma PlacedNonNull(m: Memory, live: map<int, int>, before: map<int, int>, image: seq<byte>, ss: seq<Segment>,
                      ps: seq<int>)
    requires AllPlaced(m, live, before, image, ss, ps)
    ensures 0 !in ps
  {
    forall k | 0 <= k < |ps|
      ensures ps[k] != 0
    {
      assert Placed(m, live, before, image, ss[k], ps[k]);
    }
  }

  lemma DeniedHeader(h: Heap, m: Memory, a: int)
    requires Laid(h) && 0 <= a <= |m| - PHDR_SIZE && Word(m, a + P_TYPE) == PT_LOAD
    requires SegmentAt(m, a).memsz <= 0xFFFF_FFF8 && Alloc(h, SegmentAt(m, a).memsz).1 == 0
    ensures TurnedAway(m, a, h.blocks)
  {
    hide Word, Alloc, Tiles, UsedBlocks, Extents, HasRoom;
    var n := SegmentAt(m, a).memsz;
    if n > 0 { RoomFor(h, n); }
  }

  /** What `load_elf_module` has done after some of the segments: the heap after one
      `kmalloc` per segment, and every one of them placed. None of them is empty, because
      `kmalloc(0)` is NULL and ends the load. */
  ghost predicate Progress(h0: Heap, h: Heap, m: Memory, image: seq<byte>, ss: seq<Segment>, ps: seq<int>) {
    && AllocSeq(h0, Sizes(ss)) == (h, ps) && AllPlaced(m, h.Live(), h0.Live(), image, ss, ps)
    && forall s :: s in ss ==> s.memsz > 0
  }

  /** `load_elf_module` for the image at `base`. `ok` tells success from failure, which the
      returned pointer alone does not if the entry point is 0; `ps` are the blocks that have
      been allocated, in program header order, and stay allocated on failure; `at` has the block
      of each header that has been dealt with. */
  method LoadElf(mm: Mm, base: word, ghost len: int)
    returns (entry: word, ghost ok: bool, ghost ps: seq<int>, ghost at: seq<int>)
    requires mm.Valid() && ImageOk(mm.ram[..], base, len)
    requires forall a :: base <= a < base + len ==> Protected(mm.heapStart, mm.heapEnd, mm.Live(), a)
    modifies mm, mm.ram
    ensures mm.Valid() && mm.heapStart == old(mm.heapStart) && mm.heapEnd == old(mm.heapEnd)
    ensures Untouched(old(mm.ram[..]), mm.ram[..], mm.heapStart, mm.heapEnd, old(mm.Live()))
    ensures forall p :: p in old(mm.Live()) ==> p in mm.Live() && mm.Live()[p] == old(mm.Live())[p]
    ensures LoadLaw(old(mm.ram[..]), base, old(mm.Model()), mm.ram[..], mm.Model(), entry, ok, at)
    ensures
      var h, m, image := old(mm.Model()), old(mm.ram[..]), old(mm.ram[base..base + len]);
      var ss := ImageSegments(m, base, len);
      && |ps| <= |ss| && Progress(h, mm.Model(), mm.ram[..], image, ss[..|ps|], ps)
      && (ok <==> Loads(h, m, base, len))
      && ps == BeforeNull(AllocSeq(h, Sizes(ss)).1)
      && ((exists s :: s in ss && s.memsz == 0) ==> !ok)
      && (ok ==> |ps| == |ss| && entry == Word(m, base + E_ENTRY))
      && (!ok ==> entry == 0 && (mm.Model() == h <==> ps == []))
      && (|ps| < |ss| ==> Alloc(mm.Model(), ss[|ps|].memsz).1 == 0)
  {
    hide Inv, Headers, Tiles, UsedBlocks, Extents, Alloc, Untouched, Protected, Word, Half, AllocSeq, Segments,
         Progress, Sizes, BeforeNull, HeadersLoaded, TurnedAway, At;
    ghost var m0, h0, live0, lo, hi := mm.ram[..], mm.Model(), mm.Live(), mm.heapStart, mm.heapEnd;
    UntouchedSame(m0, lo, hi, live0);
    ok, ps, at, entry := false, [], [], 0;
    var good := CheckHeader(mm.ram, base);
    if !good {
      NothingLoaded(h0, m0, m0[base..base + len]);
      LoadDecided(h0, [], 0);
      return;
    }
    var phoff := LoadWord(mm.ram, base + E_PHOFF);
    var phnum := LoadHalf(mm.ram, base + E_PHNUM);
    var loaded;
    ghost var done;
    loaded, ps, done := LoadTable(mm, base, base + phoff, phnum, len);
    at := At(m0, base + phoff, done, ps);
    HeadersDone(h0, mm.Model(), m0, base, len, done, mm.ram[..], ps);
    Decided(h0, mm.Model(), mm.ram[..], m0[base..base + len], Segments(m0, base + phoff, phnum), ps);
    ImageStays(m0, mm.ram[..], lo, hi, live0, base, len);
    if loaded {
      ok := true;
      entry := LoadWord(mm.ram, base + E_ENTRY);
    }
  }

  /** The loop over the program headers at `table`; it ends at the first NULL. */
  method LoadTable(mm: Mm, base: word, table: word, phnum: int, ghost len: int)
    returns (loaded: bool, ghost ps: seq<int>, ghost done: nat)
    requires mm.Valid() && 0 < base <= table && base + len < ADDRESS_SPACE
    requires 0 <= phnum && table + PHDR_SIZE * phnum <= base + len
    requires forall s :: s in Segments(mm.ram[..], table, phnum) ==> SegmentFits(s, len)
    requires forall a :: base <= a < base + len ==> Protected(mm.heapStart, mm.heapEnd, mm.Live(), a)
    modifies mm, mm.ram
    ensures mm.Valid() && mm.heapStart == old(mm.heapStart) && mm.heapEnd == old(mm.heapEnd)
    ensures Untouched(old(mm.ram[..]), mm.ram[..], mm.heapStart, mm.heapEnd, old(mm.Live()))
    ensures forall p :: p in old(mm.Live()) ==> p in mm.Live() && mm.Live()[p] == old(mm.Live())[p]
    ensures var all := Segments(old(mm.ram[..]), table, phnum);
      && |ps| <= |all| && (loaded <==> |ps| == |all|)
      && Progress(old(mm.Model()), mm.Model(), mm.ram[..], old(mm.ram[..])[base..base + len], all[..|ps|], ps)
      && (|ps| < |all| ==> Alloc(mm.Model(), all[|ps|].memsz).1 == 0)
      && done <= phnum && (loaded <==> done == phnum) && all[..|ps|] == Segments(old(mm.ram[..]), table, done)
    ensures done < phnum ==> TurnedAway(old(mm.ram[..]), table + PHDR_SIZE * done, mm.blocks)
  {
    hide Inv, Headers, Tiles, UsedBlocks, Extents, Alloc, Untouched, Protected, Word, Half, AllocSeq, Segments,
         Progress, TurnedAway;
    ghost var m0, h0, live0, lo, hi := mm.ram[..], mm.Model(), mm.Live(), mm.heapStart, mm.heapEnd;
    ghost var image, all := m0[base..base + len], Segments(m0, table, phnum);
    UntouchedSame(m0, lo, hi, live0);
    NothingLoaded(h0, m0, image);
    NoSegments(m0, table);
    ghost var ss := [];
    ps := [];
    var i, ph: word := 0, table;
    while i < phnum
      invariant 0 <= i <= phnum && ph == table + PHDR_SIZE * i && ss == Segments(m0, table, i)
      invariant mm.Valid() && mm.heapStart == lo && mm.heapEnd == hi
      invariant Untouched(m0, mm.ram[..], lo, hi, live0)
      invariant forall p :: p in live0 ==> p in mm.Live() && mm.Live()[p] == live0[p]
      invariant Progress(h0, mm.Model(), mm.ram[..], image, ss, ps) && |ps| == |ss|
    {
      ImageStays(m0, mm.ram[..], lo, hi, live0, base, len);
      SegmentsPrefix(m0, table, i, phnum);
      SegmentsPrefix(m0, table, i + 1, phnum);
      NextSegment(m0, table, i);
      var t := LoadWord(mm.ram, ph + P_TYPE);
      if t == PT_LOAD {
        var offset := LoadWord(mm.ram, ph + P_OFFSET);
        var filesz := LoadWord(mm.ram, ph + P_FILESZ);
        var memsz := LoadWord(mm.ram, ph + P_MEMSZ);
        var s := Segment(offset, filesz, memsz);
        var p := LoadNext(mm, base, s, len, h0, m0, ss, ps);
        if p == 0 {
          assert all[..|ss|] == ss;
          mm.Layout();
          DeniedHeader(mm.Model(), m0, ph);
          return false, ps, i;
        }
        ss, ps := ss + [s], ps + [p as int];
      }
      i, ph := i + 1, ph + PHDR_SIZE;
    }
    assert all[..|ps|] == all;
    return true, ps, phnum;
  }

  /** The outcome of a load in terms of the heap it started with. */
  lemma Decided(h0: Heap, h: Heap, m: Memory, image: seq<byte>, ss: seq<Segment>, ps: seq<int>)
    requires |ps| <= |ss| && Progress(h0, h, m, image, ss[..|ps|], ps)
    requires |ps| < |ss| ==> Alloc(h, ss[|ps|].memsz).1 == 0
    ensures 0 !in AllocSeq(h0, Sizes(ss)).1 <==> |ps| == |ss|
    ensures ps == BeforeNull(AllocSeq(h0, Sizes(ss)).1)
    ensures h == h0 <==> ps == []
    ensures |ps| == |ss| ==> forall s :: s in ss ==> s.memsz > 0
  {
    hide Alloc, AllocSeq, UsedBlocks, Extents;
    var n := |ps|;
    forall k | 0 <= k < n
      ensures ps[k] != 0 && ps[k] in h.Live() && ps[k] !in h0.Live()
    {
      assert Placed(m, h.Live(), h0.Live(), image, ss[..n][k], ps[k]);
    }
    LoadDecided(h0, ss, n);
    assert n == |ss| ==> ss[..n] == ss;
    if n == 0 {
      AllocSeqNone(h0, ss[..0]);
    } else {
      assert ps[0] in h.Live() && ps[0] !in h0.Live();
    }
  }

  lemma AllocSeqNone(h: Heap, ss: seq<Segment>)
    requires ss == []
    ensures AllocSeq(h, Sizes(ss)) == (h, [])
  {
    assert Sizes(ss) == [];
  }

  lemma NothingLoaded(h: Heap, m: Memory, image: seq<byte>)
    ensures Progress(h, h, m, image, [], [])
  {
    assert Sizes([]) == [];
  }

  lemma NoSegments(m: Memory, table: int)
    requires 0 <= table <= |m|
    ensures Segments(m, table, 0) == []
  {
  }

  lemma NextSegment(m: Memory, table: int, i: nat)
    requires 0 <= table && table + PHDR_SIZE * (i + 1) <= |m|
    ensures var a := table + PHDR_SIZE * i;
            Segments(m, table, i + 1) == Segments(m, table, i)
                + (if Word(m, a + P_TYPE) == PT_LOAD then [SegmentAt(m, a)] else [])
  {
  }

  /** One turn of the loop on a PT_LOAD entry. */
  method LoadNext(mm: Mm, base: word, s: Segment, ghost len: int, ghost h0: Heap, ghost m0: Memory,
                  ghost ss: seq<Segment>, ghost ps: seq<int>) returns (p: word)
    requires mm.Valid() && 0 < base && 0 <= len && base + len < ADDRESS_SPACE && SegmentFits(s, len) && Full(m0)
    requires Untouched(m0, mm.ram[..], mm.heapStart, mm.heapEnd, h0.Live())
    requires forall x :: x in h0.Live() ==> x in mm.Live() && mm.Live()[x] == h0.Live()[x]
    requires forall a :: base <= a < base + len ==> Protected(mm.heapStart, mm.heapEnd, h0.Live(), a)
    requires Progress(h0, mm.Model(), mm.ram[..], m0[base..base + len], ss, ps)
    modifies mm, mm.ram
    ensures mm.Valid() && mm.heapStart == old(mm.heapStart) && mm.heapEnd == old(mm.heapEnd)
    ensures Untouched(m0, mm.ram[..], mm.heapStart, mm.heapEnd, h0.Live())
    ensures forall x :: x in h0.Live() ==> x in mm.Live() && mm.Live()[x] == h0.Live()[x]
    ensures p == 0 ==> mm.Model() == old(mm.Model()) && Alloc(mm.Model(), s.memsz).1 == 0
                       && Progress(h0, mm.Model(), mm.ram[..], m0[base..base + len], ss, ps)
    ensures p != 0 ==> Progress(h0, mm.Model(), mm.ram[..], m0[base..base + len], ss + [s], ps + [p as int])
  {
    hide Inv, Headers, Tiles, UsedBlocks, Extents, Alloc, Untouched, Protected, Word, Placed, AllocSeq, HasRoom;
    ghost var m1, live1, live0, lo, hi := mm.ram[..], mm.Live(), h0.Live(), mm.heapStart, mm.heapEnd;
    ghost var image := m0[base..base + len];
    ImageStays(m0, m1, lo, hi, live0, base, len);
    ProtectedMore(lo, hi, live0, live1, base, len);
    PlacedLive(m1, live1, live0, image, ss, ps);
    AllocSeqStep(h0, ss, s);
    p := LoadSegment(mm, base, s, len);
    ghost var m2, live2 := mm.ram[..], mm.Live();
    UntouchedFewer(m1, m2, lo, hi, live1, live0);
    UntouchedChain(m0, m1, m2, lo, hi, live0);
    SamePayloads(m1, m2, lo, hi, live1, ps);
    PlacedKept(m1, m2, live1, live2, live0, image, ss, ps);
    if p != 0 {
      PlacedEarlier(m2, live2, live1, live0, image, s, p);
      PlacedMore(m2, live2, live0, image, ss, ps, s, p);
    }
  }

  lemma ProtectedMore(lo: int, hi: int, live: map<int, int>, more: map<int, int>, base: int, len: int)
    requires forall x :: x in live ==> x in more && more[x] == live[x]
    requires forall a :: base <= a < base + len ==> Protected(lo, hi, live, a)
    ensures forall a :: base <= a < base + len ==> Protected(lo, hi, more, a)
  {
    forall a | base <= a < base + len
      ensures Protected(lo, hi, more, a)
    {
      assert Protected(lo, hi, live, a);
    }
  }

  lemma PlacedLive(m: Memory, live: map<int, int>, before: map<int, int>, image: seq<byte>, ss: seq<Segment>,
                   ps: seq<int>)
    requires AllPlaced(m, live, before, image, ss, ps)
    ensures forall p :: p in ps ==> p in live
  {
    forall p | p in ps
      ensures p in live
    {
      var k :| 0 <= k < |ps| && ps[k] == p;
      assert Placed(m, live, before, image, ss[k], ps[k]);
    }
  }

  lemma PlacedEarlier(m: Memory, live: map<int, int>, before: map<int, int>, earlier: map<int, int>,
                      image: seq<byte>, s: Segment, p: int)
    requires Placed(m, live, before, image, s, p) && forall x :: x in earlier ==> x in before
    ensures Placed(m, live, earlier, image, s, p)
  {
  }

  lemma SamePayloads(m: Memory, n: Memory, lo: int, hi: int, live: map<int, int>, ps: seq<int>)
    requires Untouched(m, n, lo, hi, live)
    ensures forall p, a :: p in ps && p in live && p <= a < p + live[p] && 0 <= a < |m| ==> n[a] == m[a]
  {
    forall p, a | p in ps && p in live && p <= a < p + live[p] && 0 <= a < |m|
      ensures n[a] == m[a]
    {
      assert Protected(lo, hi, live, a);
    }
  }

  method CheckHeader(ram: array<byte>, base: word) returns (good: bool)
    requires Full(ram[..]) && base <= ADDRESS_SPACE - EHDR_SIZE
    ensures good == HeaderOk(ram[..], base) == Accepted(ram[..], base)
  {
    hide Word, Half;
    var magic := LoadWord(ram, base);
    if magic != ELF_MAGIC { return false; }
    var kind := LoadHalf(ram, base + E_TYPE);
    if kind != EXECUTABLE { return false; }
    var machine := LoadHalf(ram, base + E_MACHINE);
    return machine == I386;
  }

  // ---------- two images that cannot be loaded ----------

  const SAMPLE_SIZE := EHDR_SIZE + 2 * PHDR_SIZE

  /** An executable file, all zero but for the header, whose table of `phnum` entries starts at
      `phoff`, and two PT_LOAD entries: 8 bytes of the file, and nothing. */
  function Sample(phoff: word, phnum: word): (file: seq<byte>)
    ensures |file| == SAMPLE_SIZE
  {
    var m0 := Bytes.Fill(SAMPLE_SIZE, 0);
    var m1 := PutWord(PutWord(m0, 0, ELF_MAGIC), E_TYPE, EXECUTABLE + 0x1_0000 * I386);
    var m2 := PutWord(PutWord(m1, E_PHOFF, phoff), E_PHNUM, phnum);
    var first, second := EHDR_SIZE, EHDR_SIZE + PHDR_SIZE;
    var m3 := PutWord(PutWord(PutWord(m2, first + P_TYPE, PT_LOAD), first + P_FILESZ, 8), first + P_MEMSZ, 8);
    PutWord(m3, second + P_TYPE, PT_LOAD)
  }

  /** The file lies at `base`; the rest of memory may hold anything. */
  ghost predicate SampleAt(m: Memory, base: int, phoff: word, phnum: word) {
    Full(m) && 0 < base && base + SAMPLE_SIZE < ADDRESS_SPACE && m[base..base + SAMPLE_SIZE] == Sample(phoff, phnum)
  }

  lemma HalfOfWord(m: Memory, a: int)
    requires 0 <= a <= |m| - 4
    ensures Word(m, a) == Half(m, a) + 0x1_0000 * Half(m, a + 2)
  {
  }

  lemma WordInside(m: Memory, base: int, file: seq<byte>, a: int)
    requires 0 <= base && base + |file| <= |m| && m[base..base + |file|] == file && 0 <= a <= |file| - 4
    ensures Word(m, base + a) == Word(file, a)
  {
    assert forall i :: a <= i < a + 4 ==> m[base + i] == file[i];
  }

  lemma SampleWords(phoff: word, phnum: word)
    ensures var f := Sample(phoff, phnum); var second := EHDR_SIZE + PHDR_SIZE;
      && Word(f, 0) == ELF_MAGIC && Word(f, E_TYPE) == EXECUTABLE + 0x1_0000 * I386
      && Word(f, E_PHOFF) == phoff && Word(f, E_PHNUM) == phnum
      && Word(f, EHDR_SIZE + P_TYPE) == PT_LOAD && SegmentAt(f, EHDR_SIZE) == Segment(0, 8, 8)
      && Word(f, second + P_TYPE) == PT_LOAD && SegmentAt(f, second) == Segment(0, 0, 0)
  {
    hide Word, PutWord;
    var zeros := Bytes.Fill(SAMPLE_SIZE, 0);
    ZeroWord(zeros, EHDR_SIZE + P_OFFSET);
    ZeroWord(zeros, EHDR_SIZE + PHDR_SIZE + P_OFFSET);
    ZeroWord(zeros, EHDR_SIZE + PHDR_SIZE + P_FILESZ);
    ZeroWord(zeros, EHDR_SIZE + PHDR_SIZE + P_MEMSZ);
  }

  lemma SegmentInside(m: Memory, base: int, file: seq<byte>, a: int)
    requires 0 <= base && base + |file| <= |m| && m[base..base + |file|] == file && 0 <= a <= |file| - PHDR_SIZE
    ensures SegmentAt(m, base + a) == SegmentAt(file, a)
    ensures Word(m, base + a + P_TYPE) == Word(file, a + P_TYPE)
  {
    hide Word;
    WordInside(m, base, file, a + P_TYPE);
    WordInside(m, base, file, a + P_OFFSET);
    WordInside(m, base, file, a + P_FILESZ);
    WordInside(m, base, file, a + P_MEMSZ);
  }

  lemma SampleFields(m: Memory, base: word, phoff: word, phnum: word)
    requires SampleAt(m, base, phoff, phnum) && phnum < 0x1_0000
    ensures HeaderOk(m, base) && Word(m, base + E_PHOFF) == phoff && Half(m, base + E_PHNUM) == phnum
    ensures var first, second := base + EHDR_SIZE, base + EHDR_SIZE + PHDR_SIZE;
      && Word(m, first + P_TYPE) == PT_LOAD && SegmentAt(m, first) == Segment(0, 8, 8)
      && Word(m, second + P_TYPE) == PT_LOAD && SegmentAt(m, second) == Segment(0, 0, 0)
  {
    hide Word, Half, Sample, SegmentAt;
    var f := Sample(phoff, phnum);
    SampleWords(phoff, phnum);
    WordInside(m, base, f, 0);
    WordInside(m, base, f, E_TYPE);
    WordInside(m, base, f, E_PHOFF);
    WordInside(m, base, f, E_PHNUM);
    HalvesOf(m, base + E_TYPE, EXECUTABLE, I386);
    HalvesOf(m, base + E_PHNUM, phnum, 0);
    SegmentInside(m, base, f, EHDR_SIZE);
    SegmentInside(m, base, f, EHDR_SIZE + PHDR_SIZE);
  }

  lemma HalvesOf(m: Memory, a: int, low: int, high: int)
    requires 0 <= a <= |m| - 4 && 0 <= low < 0x1_0000 && 0 <= high < 0x1_0000
    requires Word(m, a) == low + 0x1_0000 * high
    ensures Half(m, a) == low && Half(m, a + 2) == high
  {
    hide Half, Word;
    HalfOfWord(m, a);
  }

  lemma ZeroWord(m: Memory, a: int)
    requires 0 <= a <= |m| - 4 && forall i :: 0 <= i < |m| ==> m[i] == 0
    ensures Word(m, a) == 0
  {
  }

  /** The file may lie below a new heap that `init_heap` has just set up. */
  lemma SampleBesideHeap(lo: word, hi: word, base: word, phoff: word, phnum: word)
    requires 0 < base && base + SAMPLE_SIZE <= lo && lo + HEADER <= hi
    ensures exists m :: SampleAt(m, base, phoff, phnum) && Headers(m, Initial(lo, hi).blocks)
  {
    hide Sample, Headers, FirstImage;
    var m := PutBytes(Bytes.Fill(ADDRESS_SPACE, 0), base, Sample(phoff, phnum));
    FirstHeaders(m, lo, hi);
    var n := FirstImage(m, lo, hi - lo - HEADER);
    assert forall a :: 0 <= a < lo ==> Protected(lo, hi, map[], a);
    assert n[base..base + SAMPLE_SIZE] == m[base..base + SAMPLE_SIZE];
    assert SampleAt(n, base, phoff, phnum);
  }

  /** An image with nothing but an empty PT_LOAD segment is never loaded, whatever else is in
      memory and however much of it is free, and nothing is allocated for it. */
  lemma EmptySegmentFails(h: Heap, m: Memory, base: word)
    requires SampleAt(m, base, EHDR_SIZE + PHDR_SIZE, 1)
    ensures ImageOk(m, base, SAMPLE_SIZE) && ImageSegments(m, base, SAMPLE_SIZE) == [Segment(0, 0, 0)]
    ensures HeaderOk(m, base) && !Loads(h, m, base, SAMPLE_SIZE)
    ensures BeforeNull(AllocSeq(h, Sizes(ImageSegments(m, base, SAMPLE_SIZE))).1) == []
  {
    hide Word, Half, Sample, HeaderOk, Alloc, AllocSeq, Sizes, Segments;
    SampleFields(m, base, EHDR_SIZE + PHDR_SIZE, 1);
    var table := base + EHDR_SIZE + PHDR_SIZE;
    NoSegments(m, table);
    NextSegment(m, table, 0);
    NothingForNothing(h);
    AllocSeqNone(h, []);
    AllocSeqStep(h, [], Segment(0, 0, 0));
    assert [] + [Segment(0, 0, 0)] == [Segment(0, 0, 0)];
  }

  lemma SampleSegments(m: Memory, base: word)
    requires SampleAt(m, base, EHDR_SIZE, 2)
    ensures ImageOk(m, base, SAMPLE_SIZE) && HeaderOk(m, base)
    ensures ImageSegments(m, base, SAMPLE_SIZE) == [Segment(0, 8, 8), Segment(0, 0, 0)]
  {
    hide Word, Half, Sample, HeaderOk, Segments;
    SampleFields(m, base, EHDR_SIZE, 2);
    var table := base + EHDR_SIZE;
    NoSegments(m, table);
    NextSegment(m, table, 0);
    NextSegment(m, table, 1);
  }

  lemma SampleGrants(lo: int, hi: int)
    requires HEADER <= lo && lo + HEADER + 8 <= hi < ADDRESS_SPACE && lo % ALIGNMENT == 0 && hi % ALIGNMENT == 0
    ensures var (h', ps) := AllocSeq(Initial(lo, hi), Sizes([Segment(0, 8, 8), Segment(0, 0, 0)]));
      0 in ps && |BeforeNull(ps)| == 1 && ps[0] in h'.Live()
  {
    hide Alloc, AllocSeq, Sizes, Tiles, UsedBlocks, Extents, GrantLaw;
    var h := Initial(lo, hi);
    InitialInv(lo, hi);
    AllocMeaning(h, 8);
    assert h.blocks[0] in h.blocks && Fits(h.blocks[0], Align(8));
    var (h1, p) := Alloc(h, 8);
    NothingForNothing(h1);
    AllocSeqNone(h, []);
    AllocSeqStep(h, [], Segment(0, 8, 8));
    assert [] + [Segment(0, 8, 8)] == [Segment(0, 8, 8)];
    AllocSeqStep(h, [Segment(0, 8, 8)], Segment(0, 0, 0));
    assert [Segment(0, 8, 8)] + [Segment(0, 0, 0)] == [Segment(0, 8, 8), Segment(0, 0, 0)];
    BeforeNullIs([p, 0], 1);
  }

  /** An image with a segment of 8 bytes and an empty one is not loaded either, and on any new
      heap with room for it the block of the first segment stays allocated, whatever else is in
      memory. */
  lemma FailedLoadLeaks(lo: int, hi: int, m: Memory, base: word)
    requires SampleAt(m, base, EHDR_SIZE, 2)
    requires HEADER <= lo && lo + HEADER + 8 <= hi < ADDRESS_SPACE && lo % ALIGNMENT == 0 && hi % ALIGNMENT == 0
    ensures ImageOk(m, base, SAMPLE_SIZE) && HeaderOk(m, base)
    ensures ImageSegments(m, base, SAMPLE_SIZE) == [Segment(0, 8, 8), Segment(0, 0, 0)]
    ensures var h := Initial(lo, hi);
      && !Loads(h, m, base, SAMPLE_SIZE) && h.Live() == map[]
      && var (h', ps) := AllocSeq(h, Sizes(ImageSegments(m, base, SAMPLE_SIZE)));
         |BeforeNull(ps)| == 1 && ps[0] in h'.Live()
  {
    hide HeaderOk, SampleAt, ImageOk, ImageSegments, AllocSeq, Sizes, BeforeNull, Tiles, UsedBlocks, Extents;
    SampleSegments(m, base);
    SampleGrants(lo, hi);
    InitialInv(lo, hi);
  }
}
