/** How the block list lies in memory: a 16-byte header in front of every payload, linked by
    address, and which bytes of memory the allocator must leave alone. */
module HeapImage {
  import opened Bytes
  import opened Blocks
  import opened HeapModel

  const MAGIC := 0xDEADBEEF

  // offsets in mem_block_t
  const SIZE := 0
  const NEXT := 4
  const FREE := 8
  const MAGIC_AT := 12

  /** The link to block `i`; NULL behind the last one. */
  function Link(bs: seq<Block>, i: nat): int
    requires i <= |bs|
  {
    if i < |bs| then bs[i].addr else 0
  }

  /** The header of block `i` in memory. */
  ghost predicate HeaderAt(m: Memory, bs: seq<Block>, i: nat)
    requires i < |bs|
  {
    && 0 <= bs[i].addr <= |m| - HEADER
    && Word(m, bs[i].addr + SIZE) == bs[i].size
    && Word(m, bs[i].addr + NEXT) == Link(bs, i + 1)
    && m[bs[i].addr + FREE] == (if bs[i].free then 1 else 0)
    && Word(m, bs[i].addr + MAGIC_AT) == MAGIC
  }

  ghost predicate Headers(m: Memory, bs: seq<Block>) {
    forall i {:trigger HeaderAt(m, bs, i)} :: 0 <= i < |bs| ==> HeaderAt(m, bs, i)
  }

  // ---------- protected bytes ----------

  /** Bytes that belong to somebody else: outside lo..hi, or in a live payload. */
  ghost predicate Protected(lo: int, hi: int, live: map<int, int>, a: int) {
    a < lo || hi <= a || exists p :: p in live && p <= a < p + live[p]
  }

  /** No protected byte differs between the two memories. */
  ghost predicate Untouched(m: Memory, n: Memory, lo: int, hi: int, live: map<int, int>) {
    |m| == |n| && forall a {:trigger n[a]} {:trigger m[a]} :: 0 <= a < |m| && Protected(lo, hi, live, a) ==>
        n[a] == m[a]
  }

  lemma UntouchedChain(m: Memory, n: Memory, o: Memory, lo: int, hi: int, live: map<int, int>)
    requires Untouched(m, n, lo, hi, live) && Untouched(n, o, lo, hi, live)
    ensures Untouched(m, o, lo, hi, live)
  {
  }

  lemma UntouchedFewer(m: Memory, n: Memory, lo: int, hi: int, live: map<int, int>, fewer: map<int, int>)
    requires Untouched(m, n, lo, hi, live)
    requires forall p :: p in fewer ==> p in live && live[p] == fewer[p]
    ensures Untouched(m, n, lo, hi, fewer)
  {
    assert forall a :: Protected(lo, hi, fewer, a) ==> Protected(lo, hi, live, a);
  }

  lemma UntouchedSame(m: Memory, lo: int, hi: int, live: map<int, int>)
    ensures Untouched(m, m, lo, hi, live)
  {
  }

  /** A live payload is the same in both memories. */
  lemma PayloadUntouched(m: Memory, n: Memory, lo: int, hi: int, live: map<int, int>, p: int)
    requires Untouched(m, n, lo, hi, live) && p in live && 0 <= p && 0 <= live[p] && p + live[p] <= |m|
    ensures m[p..p + live[p]] == n[p..p + live[p]]
  {
    forall a | p <= a < p + live[p]
      ensures n[a] == m[a]
    {
      assert Protected(lo, hi, live, a);
    }
  }

  /** No header byte is protected. */
  lemma HeaderExposed(bs: seq<Block>, lo: int, hi: int, i: nat, a: int)
    requires Tiles(bs, lo, hi) && i < |bs| && bs[i].addr <= a < bs[i].addr + HEADER
    ensures !Protected(lo, hi, Live(bs), a)
  {
    Ordered(bs, lo, hi);
    forall p | p in Live(bs)
      ensures !(p <= a < p + Live(bs)[p])
    {
      var j := Position(bs, p);
      assert bs[j].Ptr() == p;
      assert j < i ==> bs[j].End() <= bs[i].addr;
      assert i < j ==> bs[i].End() <= bs[j].addr;
    }
  }

  /** No byte of a free block is protected. */
  lemma FreeExposed(bs: seq<Block>, lo: int, hi: int, i: nat, a: int)
    requires Tiles(bs, lo, hi) && i < |bs| && bs[i].free && bs[i].addr <= a < bs[i].End()
    ensures !Protected(lo, hi, Live(bs), a)
  {
    Ordered(bs, lo, hi);
    forall p | p in Live(bs)
      ensures !(p <= a < p + Live(bs)[p])
    {
      var j := Position(bs, p);
      assert bs[j].Ptr() == p;
      assert j < i ==> bs[j].End() <= bs[i].addr;
      assert i < j ==> bs[i].End() <= bs[j].addr;
    }
  }

  /** Writing only inside one free block touches nothing protected. */
  lemma WriteInFree(m: Memory, n: Memory, bs: seq<Block>, lo: int, hi: int, i: nat)
    requires Tiles(bs, lo, hi) && i < |bs| && bs[i].free && |m| == |n|
    requires forall a :: 0 <= a < |m| && !(bs[i].addr <= a < bs[i].End()) ==> n[a] == m[a]
    ensures Untouched(m, n, lo, hi, Live(bs))
  {
    forall a | 0 <= a < |m| && Protected(lo, hi, Live(bs), a)
      ensures n[a] == m[a]
    {
      if bs[i].addr <= a < bs[i].End() { FreeExposed(bs, lo, hi, i, a); }
    }
  }

  /** A header survives any write outside its sixteen bytes. */
  lemma HeaderKept(m: Memory, n: Memory, bs: seq<Block>, i: nat, cs: seq<Block>, k: nat)
    requires i < |bs| && HeaderAt(m, bs, i) && |m| == |n|
    requires k < |cs| && cs[k] == bs[i] && Link(cs, k + 1) == Link(bs, i + 1)
    requires forall a :: bs[i].addr <= a < bs[i].addr + HEADER ==> n[a] == m[a]
    ensures HeaderAt(n, cs, k)
  {
    SameWord(m, n, bs[i].addr + SIZE);
    SameWord(m, n, bs[i].addr + NEXT);
    SameWord(m, n, bs[i].addr + MAGIC_AT);
  }

  /** Headers survive any write to protected bytes: owners may fill their payloads. */
  lemma HeadersKept(m: Memory, n: Memory, bs: seq<Block>, lo: int, hi: int)
    requires Headers(m, bs) && Tiles(bs, lo, hi) && |m| == |n|
    requires forall a :: 0 <= a < |m| && !Protected(lo, hi, Live(bs), a) ==> n[a] == m[a]
    ensures Headers(n, bs)
  {
    hide Tiles, Protected, UsedBlocks, Extents, Word;
    forall i | 0 <= i < |bs|
      ensures HeaderAt(n, bs, i)
    {
      assert HeaderAt(m, bs, i);
      forall a | bs[i].addr <= a < bs[i].addr + HEADER
        ensures n[a] == m[a]
      {
        HeaderExposed(bs, lo, hi, i, a);
      }
      HeaderKept(m, n, bs, i, bs, i);
    }
  }

  /** Live extents lie inside lo..hi, 8-aligned and at least a header apart. */
  ghost predicate Spread(lo: int, hi: int, live: map<int, int>) {
    && (forall p :: p in live ==> lo + HEADER <= p < hi && 0 <= live[p] && p + live[p] <= hi)
    && (forall p, q :: p in live && q in live && p < q ==> p + live[p] + HEADER <= q)
  }

  lemma LiveSpread(bs: seq<Block>, lo: int, hi: int)
    requires Tiles(bs, lo, hi) && (|bs| > 0 ==> bs[|bs| - 1].size > 0)
    ensures Spread(lo, hi, Live(bs))
  {
    forall p | p in Live(bs)
      ensures lo + HEADER <= p < hi && 0 <= Live(bs)[p] && p + Live(bs)[p] <= hi
    {
      LiveRange(bs, lo, hi, p);
      LastPtr(bs, lo, hi, Position(bs, p));
    }
    forall p, q | p in Live(bs) && q in Live(bs) && p < q
      ensures p + Live(bs)[p] + HEADER <= q
    {
      LiveDisjoint(bs, lo, hi, p, q);
    }
  }

  /** Filling a live payload leaves the headers in place. */
  lemma PayloadWrite(m: Memory, n: Memory, bs: seq<Block>, lo: int, hi: int, p: int)
    requires Headers(m, bs) && Tiles(bs, lo, hi) && |m| == |n| && p in Live(bs)
    requires forall a :: 0 <= a < |m| && !(p <= a < p + Live(bs)[p]) ==> n[a] == m[a]
    ensures Headers(n, bs)
  {
    hide Tiles, UsedBlocks, Extents;
    HeadersKept(m, n, bs, lo, hi);
  }

  /** No byte of a fresh grant was protected before. */
  lemma GrantExposed(lo: int, hi: int, live: map<int, int>, after: map<int, int>, p: int, a: int)
    requires p !in live && p in after && after == live[p := after[p]] && Spread(lo, hi, after)
    requires p <= a < p + after[p]
    ensures !Protected(lo, hi, live, a)
  {
    forall x | x in live
      ensures !(x <= a < x + live[x])
    {
      assert x in after && (x < p || p < x);
    }
  }

  // ---------- init_heap ----------

  /** The header of the one free block of a new heap. */
  function FirstImage(m: Memory, lo: word, size: word): Memory
    requires Full(m) && lo <= ADDRESS_SPACE - HEADER
  {
    var m1 := PutWord(m, lo + SIZE, size);
    var m2 := PutWord(m1, lo + NEXT, 0);
    var m3 := PutByte(m2, lo + FREE, 1);
    PutWord(m3, lo + MAGIC_AT, MAGIC)
  }

  lemma FirstHeaders(m: Memory, lo: word, hi: word)
    requires Full(m) && lo + HEADER <= hi
    ensures Full(FirstImage(m, lo, hi - lo - HEADER))
    ensures Headers(FirstImage(m, lo, hi - lo - HEADER), Initial(lo, hi).blocks)
    ensures Untouched(m, FirstImage(m, lo, hi - lo - HEADER), lo, hi, map[])
  {
    hide PutWord, PutByte, Word;
    var n := FirstImage(m, lo, hi - lo - HEADER);
    assert HeaderAt(n, Initial(lo, hi).blocks, 0);
  }

  // ---------- kmalloc ----------

  /** The stores of `kmalloc` that split block `b`: a header behind the granted payload, and
      the new link and size in front of it. */
  function SplitImage(m: Memory, b: Block, s: int): Memory
    requires Full(m) && 0 <= b.addr && b.End() < ADDRESS_SPACE && 0 <= s && Splits(b, s)
  {
    var nb := b.Ptr() + s;
    var m1 := PutWord(m, nb + SIZE, b.size - s - HEADER);
    var m2 := PutByte(m1, nb + FREE, 1);
    var m3 := PutWord(m2, nb + NEXT, Word(m, b.addr + NEXT));
    var m4 := PutWord(m3, nb + MAGIC_AT, MAGIC);
    PutWord(PutWord(m4, b.addr + NEXT, nb), b.addr + SIZE, s)
  }

  /** All stores of a successful `kmalloc` into block `b`. */
  function CarveImage(m: Memory, b: Block, s: int): Memory
    requires Full(m) && 0 <= b.addr && b.End() < ADDRESS_SPACE && 0 <= s && b.size >= s
  {
    PutByte(if Splits(b, s) then SplitImage(m, b, s) else m, b.addr + FREE, 0)
  }

  lemma CarveFrame(m: Memory, b: Block, s: int)
    requires Full(m) && 0 <= b.addr && b.End() < ADDRESS_SPACE && 0 <= s && b.size >= s
    ensures |CarveImage(m, b, s)| == |m|
    ensures forall a :: 0 <= a < |m| && !(b.addr <= a < b.End()) ==> CarveImage(m, b, s)[a] == m[a]
  {
    hide PutWord, PutByte;
  }

  /** The headers `kmalloc` has written, field by field. */
  lemma CarveFields(m: Memory, b: Block, s: int)
    requires Full(m) && 0 <= b.addr && b.End() < ADDRESS_SPACE && 0 <= s && b.size >= s
    ensures |CarveImage(m, b, s)| == |m|
    ensures var n := CarveImage(m, b, s);
      && n[b.addr + FREE] == 0
      && Word(n, b.addr + MAGIC_AT) == Word(m, b.addr + MAGIC_AT)
      && Word(n, b.addr + SIZE) == (if Splits(b, s) then s else Word(m, b.addr + SIZE))
      && Word(n, b.addr + NEXT) == (if Splits(b, s) then b.Ptr() + s else Word(m, b.addr + NEXT))
      && (Splits(b, s) ==>
            var nb := b.Ptr() + s;
            && Word(n, nb + SIZE) == b.size - s - HEADER
            && Word(n, nb + NEXT) == Word(m, b.addr + NEXT)
            && n[nb + FREE] == 1
            && Word(n, nb + MAGIC_AT) == MAGIC)
  {
    hide PutWord, PutByte, Word;
  }

  /** Headers other than the ones written by `kmalloc` survive. */
  lemma CarveOthers(m: Memory, n: Memory, bs: seq<Block>, lo: int, hi: int, i: nat, s: int, k: nat)
    requires Headers(m, bs) && Tiles(bs, lo, hi) && i < |bs| && |m| == |n|
    requires forall a :: 0 <= a < |m| && !(bs[i].addr <= a < bs[i].End()) ==> n[a] == m[a]
    requires k < |Carve(bs, i, s)| && !(i <= k <= i + |Rest(bs[i], s)|)
    ensures HeaderAt(n, Carve(bs, i, s), k)
  {
    hide Word, Tiles, Rest;
    Ordered(bs, lo, hi);
    var cs := Carve(bs, i, s);
    var j := if k < i then k else k - |Rest(bs[i], s)|;
    assert HeaderAt(m, bs, j);
    assert if j < i then bs[j].End() <= bs[i].addr else bs[i].End() <= bs[j].addr;
    assert Link(cs, k + 1) == Link(bs, j + 1);
    HeaderKept(m, n, bs, j, cs, k);
  }

  lemma CarveHeaders(m: Memory, bs: seq<Block>, lo: int, hi: int, i: nat, s: int)
    requires Full(m) && Headers(m, bs) && Tiles(bs, lo, hi) && 0 <= lo && hi < ADDRESS_SPACE
    requires i < |bs| && Fits(bs[i], s) && 0 <= s
    ensures bs[i].End() < ADDRESS_SPACE && 0 <= bs[i].addr
    ensures Headers(CarveImage(m, bs[i], s), Carve(bs, i, s))
  {
    hide CarveImage, Word, Tiles;
    Ordered(bs, lo, hi);
    var b, cs := bs[i], Carve(bs, i, s);
    var n := CarveImage(m, b, s);
    CarveFrame(m, b, s);
    CarveFields(m, b, s);
    assert HeaderAt(m, bs, i);
    var d := |Rest(b, s)|;
    assert cs[i] == Granted(b, s) && (d == 1 ==> cs[i + 1] == Rest(b, s)[0]);
    assert Link(cs, i + d + 1) == Link(bs, i + 1);
    assert HeaderAt(n, cs, i);
    assert d == 1 ==> HeaderAt(n, cs, i + 1);
    forall k | 0 <= k < |cs|
      ensures HeaderAt(n, cs, k)
    {
      if !(i <= k <= i + d) { CarveOthers(m, n, bs, lo, hi, i, s, k); }
    }
  }

  // ---------- kfree ----------

  lemma MarkHeaders(m: Memory, bs: seq<Block>, lo: int, hi: int, p: int)
    requires Full(m) && Headers(m, bs) && Tiles(bs, lo, hi) && 0 <= lo && hi < ADDRESS_SPACE && p in Live(bs)
    ensures 0 <= p - HEADER < ADDRESS_SPACE - HEADER
    ensures Headers(PutByte(m, p - HEADER + FREE, 1), Marked(bs, p))
    ensures Untouched(m, PutByte(m, p - HEADER + FREE, 1), lo, hi, Live(bs))
  {
    hide PutByte, Tiles, UsedBlocks, Extents;
    Ordered(bs, lo, hi);
    var i, cs := Position(bs, p), Marked(bs, p);
    assert HeaderAt(m, bs, i);
    var n := PutByte(m, p - HEADER + FREE, 1);
    forall k | 0 <= k < |cs|
      ensures HeaderAt(n, cs, k)
    {
      assert HeaderAt(m, bs, k);
      if k < i {
        assert bs[k].End() <= bs[i].addr;
        HeaderKept(m, n, bs, k, cs, k);
      } else if k > i {
        assert bs[i].End() <= bs[k].addr;
        HeaderKept(m, n, bs, k, cs, k);
      }
    }
    forall a | 0 <= a < |m| && Protected(lo, hi, Live(bs), a)
      ensures n[a] == m[a]
    {
      HeaderExposed(bs, lo, hi, i, p - HEADER + FREE);
    }
  }

  lemma MarkedLink(bs: seq<Block>, p: int)
    requires p in Live(bs)
    ensures Link(Marked(bs, p), 0) == Link(bs, 0)
  {
  }

  /** The list after block `i` has swallowed its successor. */
  function Merged(bs: seq<Block>, i: nat): seq<Block>
    requires i + 1 < |bs|
  {
    bs[..i] + [Merge(bs[i], bs[i + 1])] + bs[i + 2..]
  }

  /** The two stores of a merge. */
  function MergeImage(m: Memory, bs: seq<Block>, i: nat): Memory
    requires i + 1 < |bs| && Full(m) && 0 <= bs[i].addr < ADDRESS_SPACE - HEADER
    requires 0 <= Merge(bs[i], bs[i + 1]).size < ADDRESS_SPACE && 0 <= Link(bs, i + 2) < ADDRESS_SPACE
  {
    PutWord(PutWord(m, bs[i].addr + SIZE, Merge(bs[i], bs[i + 1]).size), bs[i].addr + NEXT, Link(bs, i + 2))
  }

  lemma MergeBounds(bs: seq<Block>, lo: int, hi: int, i: nat)
    requires Tiles(bs, lo, hi) && 0 <= lo && i + 1 < |bs|
    ensures 0 <= bs[i].addr && bs[i].End() == bs[i + 1].addr
    ensures 0 <= Merge(bs[i], bs[i + 1]).size && Merge(bs[i], bs[i + 1]).End() == bs[i + 1].End() <= hi
    ensures 0 <= Link(bs, i + 2) <= hi
  {
    Ordered(bs, lo, hi);
    Adjacent(bs, lo, hi, i);
  }

  lemma MergeOthers(m: Memory, n: Memory, bs: seq<Block>, lo: int, hi: int, i: nat, k: nat)
    requires Headers(m, bs) && Tiles(bs, lo, hi) && i + 1 < |bs| && |m| == |n|
    requires forall a :: 0 <= a < |m| && !(bs[i].addr <= a < bs[i].End()) ==> n[a] == m[a]
    requires k < |bs| - 1 && k != i
    ensures HeaderAt(n, Merged(bs, i), k)
  {
    hide Word, Tiles;
    Ordered(bs, lo, hi);
    var cs := Merged(bs, i);
    var j := if k < i then k else k + 1;
    assert HeaderAt(m, bs, j);
    assert if j < i then bs[j].End() <= bs[i].addr else bs[i].End() <= bs[j].addr;
    assert Link(cs, k + 1) == Link(bs, j + 1);
    HeaderKept(m, n, bs, j, cs, k);
  }

  lemma MergeHeaders(m: Memory, bs: seq<Block>, lo: int, hi: int, i: nat)
    requires Full(m) && Headers(m, bs) && Tiles(bs, lo, hi) && 0 <= lo && hi < ADDRESS_SPACE
    requires i + 1 < |bs| && bs[i].free && bs[i + 1].free
    ensures 0 <= bs[i].addr && Merge(bs[i], bs[i + 1]).End() <= hi && 0 <= Link(bs, i + 2) <= hi
    ensures 0 <= Merge(bs[i], bs[i + 1]).size
    ensures Headers(MergeImage(m, bs, i), Merged(bs, i))
    ensures Untouched(m, MergeImage(m, bs, i), lo, hi, Live(bs))
  {
    hide PutWord, Word, Tiles, UsedBlocks, Extents;
    Ordered(bs, lo, hi);
    MergeBounds(bs, lo, hi, i);
    var cs := Merged(bs, i);
    assert HeaderAt(m, bs, i);
    var n := MergeImage(m, bs, i);
    assert Link(cs, i + 1) == Link(bs, i + 2);
    assert HeaderAt(n, cs, i);
    forall k | 0 <= k < |cs|
      ensures HeaderAt(n, cs, k)
    {
      if k != i { MergeOthers(m, n, bs, lo, hi, i, k); }
    }
    WriteInFree(m, n, bs, lo, hi, i);
  }

  /** What the rest of the pass will do does not depend on where in the walk we look. */
  lemma MergePass(bs: seq<Block>, i: nat)
    requires i + 1 < |bs| && bs[i].free && bs[i + 1].free
    ensures Merged(bs, i)[..i + 1] + Pass(Merged(bs, i)[i + 1..]) == bs[..i] + Pass(bs[i..])
  {
    var cs := Merged(bs, i);
    assert bs[i..][0] == bs[i] && bs[i..][1] == bs[i + 1] && bs[i..][2..] == bs[i + 2..];
    assert cs[i + 1..] == bs[i + 2..] && cs[..i + 1] == bs[..i] + [Merge(bs[i], bs[i + 1])];
  }

  lemma SkipPass(bs: seq<Block>, i: nat)
    requires i < |bs| && !(bs[i].free && i + 1 < |bs| && bs[i + 1].free)
    ensures bs[..i + 1] + Pass(bs[i + 1..]) == bs[..i] + Pass(bs[i..])
  {
    assert bs[i..][0] == bs[i] && bs[i..][1..] == bs[i + 1..];
    assert bs[..i + 1] == bs[..i] + [bs[i]];
  }

  lemma MergeTiles(bs: seq<Block>, lo: int, hi: int, i: nat)
    requires Tiles(bs, lo, hi) && i + 1 < |bs|
    ensures Tiles(Merged(bs, i), lo, hi)
  {
    hide Tiles;
    var a, c := bs[..i], bs[i + 2..];
    var b := Merge(bs[i], bs[i + 1]);
    TilesSplit(bs, lo, hi, i);
    TilesSplit(bs, lo, hi, i + 2);
    Adjacent(bs, lo, hi, i);
    Adjacent(bs, lo, hi, i + 1);
    Ordered(bs, lo, hi);
    TilesOne(b);
    TilesConcat(a, [b], lo, b.addr, b.End());
    TilesConcat(a + [b], c, lo, b.End(), hi);
  }

  lemma MergeUsed(bs: seq<Block>, i: nat)
    requires i + 1 < |bs| && bs[i].free && bs[i + 1].free
    ensures UsedBlocks(Merged(bs, i)) == UsedBlocks(bs)
  {
    var a, c := bs[..i], bs[i + 2..];
    assert bs == a + [bs[i]] + ([bs[i + 1]] + c);
    assert ([bs[i + 1]] + c)[1..] == c;
    UsedAround(a, bs[i], [bs[i + 1]] + c);
    UsedAround(a, Merge(bs[i], bs[i + 1]), c);
  }
}
