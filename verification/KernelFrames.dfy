/** How the state of the running kernel is read off memory, and what keeps each subsystem's
    part of it when another subsystem works. */
module KernelFrames {
  import opened Bytes
  import opened Blocks
  import opened HeapModel
  import opened HeapRuns
  import opened HeapImage
  import opened IpcImage
  import opened IpcSteps
  import opened SandboxTable
  import opened Sandbox
  import opened System
  import Registry
  import Loader

  /** The payload bytes of every live block. */
  ghost function Payloads(m: Memory, live: map<int, int>): map<int, seq<byte>> {
    map p | p in live :: if 0 <= p <= p + live[p] <= |m| then m[p..p + live[p]] else []
  }

  ghost function AllMessages(m: Memory, q: seq<seq<int>>): (r: seq<seq<Message>>)
    ensures |r| == |q| && forall i :: 0 <= i < |q| ==> r[i] == Messages(m, q[i])
  {
    seq(|q|, i requires 0 <= i < |q| => Messages(m, q[i]))
  }

  /** The abstract state of a kernel whose memory is `m`. */
  ghost function Snapshot(h: Heap, owner: map<int, Owner>, m: Memory, q: seq<seq<int>>, slots: seq<Slot>,
                          entries: seq<int>): Sys {
    Sys(h, owner, Payloads(m, h.Live()), q, AllMessages(m, q), slots, entries, Registry.Bindings(m, entries))
  }

  lemma SnapshotShaped(h: Heap, owner: map<int, Owner>, m: Memory, q: seq<seq<int>>, slots: seq<Slot>,
                       entries: seq<int>)
    requires Laid(h) && Full(m)
    ensures Shaped(Snapshot(h, owner, m, q, slots, entries))
  {
    hide Tiles, UsedBlocks, Extents;
    LiveSpread(h.blocks, h.lo, h.hi);
  }

  /** Payloads that were protected and stay live stay the same. */
  lemma PayloadsKept(m: Memory, n: Memory, lo: int, hi: int, live: map<int, int>, after: map<int, int>,
                     kept: map<int, int>)
    requires Untouched(m, n, lo, hi, kept)
    requires forall p :: p in live && p in after ==> p in kept && live[p] == after[p] == kept[p]
    ensures forall p :: p in Payloads(m, live) && p in Payloads(n, after) ==>
        Payloads(n, after)[p] == Payloads(m, live)[p]
  {
    forall p | p in live && p in after
      ensures Payloads(n, after)[p] == Payloads(m, live)[p]
    {
      if 0 <= p <= p + live[p] <= |m| { PayloadUntouched(m, n, lo, hi, kept, p); }
    }
  }

  /** The same for blocks that the message queues do not own. */
  lemma PayloadsSpared(m: Memory, n: Memory, lo: int, hi: int, base: int, live: map<int, int>, after: map<int, int>,
                       others: map<int, int>, fromPid: int, buffer: int, size: int, kind: int, changed: set<int>)
    requires SparedBut(m, n, lo, hi, base, others, fromPid, buffer, size, kind)
    requires forall p :: p in live && p in after && p !in changed ==> p in others && live[p] == after[p] == others[p]
    requires forall p, a :: p in live && p !in changed && p <= a < p + live[p] ==>
        !OutByte(fromPid, buffer, size, kind, a)
    ensures forall p :: p in Payloads(m, live) && p in Payloads(n, after) && p !in changed ==>
        Payloads(n, after)[p] == Payloads(m, live)[p]
  {
    hide OutByte;
    forall p | p in live && p in after && p !in changed
      ensures Payloads(n, after)[p] == Payloads(m, live)[p]
    {
      if 0 <= p <= p + live[p] <= |m| {
        forall a | p <= a < p + live[p]
          ensures n[a] == m[a]
        {
          assert Elsewhere(lo, hi, base, others, a);
        }
      }
    }
  }

  // ---------- static memory ----------

  /** Static memory is the same, but for the list heads. */
  ghost predicate SameStatic(m: Memory, n: Memory, lo: int, hi: int, base: int) {
    |m| == |n|
    && forall a {:trigger n[a]} {:trigger m[a]} ::
         0 <= a < |m| && (a < lo || hi <= a) && !(base <= a < base + HEADS_SIZE) ==> n[a] == m[a]
  }

  lemma StaticUntouched(m: Memory, n: Memory, lo: int, hi: int, base: int, live: map<int, int>)
    requires Untouched(m, n, lo, hi, live)
    ensures SameStatic(m, n, lo, hi, base)
  {
  }

  lemma StaticSpared(m: Memory, n: Memory, lo: int, hi: int, base: int, others: map<int, int>)
    requires Spared(m, n, lo, hi, base, others)
    ensures SameStatic(m, n, lo, hi, base)
  {
  }

  lemma StaticChain(m: Memory, n: Memory, o: Memory, lo: int, hi: int, base: int)
    requires SameStatic(m, n, lo, hi, base) && SameStatic(n, o, lo, hi, base)
    ensures SameStatic(m, o, lo, hi, base)
  {
  }

  // ---------- the subsystems ----------

  /** The three subsystems that keep structures in heap blocks are intact. */
  ghost predicate ClientsOk(m: Memory, lo: int, hi: int, base: int, live: map<int, int>, q: seq<seq<int>>,
                            slots: seq<Slot>, entries: seq<int>) {
    && HeadsOutside(lo, hi, base) && QueuesOk(m, base, live, q)
    && PagesOk(slots, live)
    && Registry.Chain(m, live, entries)
  }

  /** The blocks in which they do. */
  ghost predicate ClientBlock(q: seq<seq<int>>, slots: seq<Slot>, entries: seq<int>, p: int) {
    || IsNode(q, p)
    || (exists i :: 0 <= i < |slots| && slots[i].used && slots[i].memory == p)
    || p in entries
  }

  /** All subsystems survive whatever leaves their blocks live and untouched. */
  lemma ClientsKept(m: Memory, n: Memory, lo: int, hi: int, base: int, live: map<int, int>, after: map<int, int>,
                    kept: map<int, int>, q: seq<seq<int>>, slots: seq<Slot>, entries: seq<int>)
    requires ClientsOk(m, lo, hi, base, live, q, slots, entries) && Untouched(m, n, lo, hi, kept)
    requires forall p :: ClientBlock(q, slots, entries, p) && p in live ==>
        p in after && p in kept && after[p] == live[p] == kept[p]
    ensures ClientsOk(n, lo, hi, base, after, q, slots, entries)
    ensures AllMessages(n, q) == AllMessages(m, q) && Registry.Bindings(n, entries) == Registry.Bindings(m, entries)
  {
    hide Untouched, QueueOk, Messages, Registry.Chain, Registry.Bindings, IsNode;
    QueuesKept(m, n, lo, hi, base, live, after, kept, q);
    assert AllMessages(n, q) == AllMessages(m, q);
    PagesKept(slots, live, after);
    Registry.ChainUntouched(m, n, lo, hi, live, after, kept, entries);
  }

  /** The registry does not notice the work of the message queues. */
  lemma RegistrySpared(m: Memory, n: Memory, lo: int, hi: int, base: int, live: map<int, int>, after: map<int, int>,
                       others: map<int, int>, entries: seq<int>, fromPid: int, buffer: int, size: int, kind: int)
    requires Registry.Chain(m, live, entries) && SparedBut(m, n, lo, hi, base, others, fromPid, buffer, size, kind)
    requires forall p :: p in entries && p in live ==> p in after && p in others && after[p] == live[p] == others[p]
    requires forall p, a :: p in entries && p in live && p <= a < p + live[p] ==>
        !OutByte(fromPid, buffer, size, kind, a)
    ensures Registry.Chain(n, after, entries) && Registry.Bindings(n, entries) == Registry.Bindings(m, entries)
  {
    hide OutByte, Registry.Chain, Registry.Bindings;
    forall p, a | p in entries && p in live && p <= a < p + live[p] && 0 <= a < |m|
      ensures n[a] == m[a]
    {
      assert Elsewhere(lo, hi, base, others, a);
    }
    Registry.ChainKept(m, n, live, after, entries);
  }

  /** `Spared` is `SparedBut` with nothing asked for. */
  lemma SparedPlain(m: Memory, n: Memory, lo: int, hi: int, base: int, others: map<int, int>)
    requires Spared(m, n, lo, hi, base, others)
    ensures SparedBut(m, n, lo, hi, base, others, 0, 0, 0, 0)
    ensures forall a :: !OutByte(0, 0, 0, 0, a)
  {
  }

  // ---------- owners and blocks ----------

  /** In a valid system a block that a subsystem uses has that subsystem as its owner. */
  lemma ClientOwners(s: Sys, p: int)
    requires SysInv(s) && ClientBlock(s.nodes, s.slots, s.entries, p)
    ensures p in s.owner && s.owner[p] != Caller && s.owner[p] != ElfSegment && p in s.heap.Live()
    ensures IsNode(s.nodes, p) <==> s.owner[p].QueueNode?
    ensures p in s.entries ==> s.owner[p] == RegistryEntry
  {
    hide Inv;
    NodeOwner(s, p);
    assert p in s.entries <==> p in s.owner && s.owner[p] == RegistryEntry;
  }

  lemma NodeOwner(s: Sys, p: int)
    requires SysInv(s)
    ensures IsNode(s.nodes, p) <==> p in s.owner && s.owner[p].QueueNode?
  {
    hide Inv;
    if IsNode(s.nodes, p) {
      var i :| 0 <= i < |s.nodes| && p in s.nodes[i];
      assert p in s.nodes[i] <==> p in s.owner && s.owner[p] == QueueNode(i);
    }
    if p in s.owner && s.owner[p].QueueNode? {
      var i := s.owner[p].pid;
      assert p in s.nodes[i] <==> p in s.owner && s.owner[p] == QueueNode(i);
    }
  }

  /** What the queues call other owners' blocks are the blocks of other owners. */
  lemma OthersOwned(s: Sys)
    requires SysInv(s)
    ensures forall p :: p in IpcImage.Others(s.heap.Live(), s.nodes) <==> p in s.owner && !s.owner[p].QueueNode?
    ensures forall p :: p in IpcImage.Others(s.heap.Live(), s.nodes) ==>
        IpcImage.Others(s.heap.Live(), s.nodes)[p] == s.heap.Live()[p]
  {
    hide Inv, IsNode;
    forall p
      ensures p in IpcImage.Others(s.heap.Live(), s.nodes) <==> p in s.owner && !s.owner[p].QueueNode?
    {
      NodeOwner(s, p);
    }
  }

  // ---------- grants and releases under all subsystems ----------

  lemma GrantFrame(h: Heap, owner: map<int, Owner>, m: Memory, q: seq<seq<int>>, slots: seq<Slot>, entries: seq<int>,
                   base: int, n: word, h': Heap, p: int, m': Memory, o: Owner)
    requires SysInv(Snapshot(h, owner, m, q, slots, entries))
    requires ClientsOk(m, h.lo, h.hi, base, h.Live(), q, slots, entries)
    requires (h', p) == Alloc(h, n) && Untouched(m, m', h.lo, h.hi, h.Live()) && Full(m')
    ensures var s, t := Snapshot(h, owner, m, q, slots, entries),
        Snapshot(h', WithOwner(owner, p, o), m', q, slots, entries);
      && Grants(s, t, n, p, o) && SameContents(s, t, {}) && SameClients(s, t)
    ensures h'.lo == h.lo && h'.hi == h.hi && ClientsOk(m', h.lo, h.hi, base, h'.Live(), q, slots, entries)
  {
    hide Inv, Alloc, UsedBlocks, Extents, Untouched, QueuesOk, Payloads, AllMessages, Registry.Bindings, NodesOwned,
         PagesOwned, EntriesOwned, GrantLaw;
    InvLaid(h);
    AllocKeepsInv(h, n);
    AllocMeaning(h, n);
    InvLaid(h');
    ClientsKept(m, m', h.lo, h.hi, base, h.Live(), h'.Live(), h.Live(), q, slots, entries);
    PayloadsKept(m, m', h.lo, h.hi, h.Live(), h'.Live(), h.Live());
    SnapshotShaped(h', WithOwner(owner, p, o), m', q, slots, entries);
  }

  /** The release of `p` when no subsystem uses it any more. */
  lemma FreeFrame(h: Heap, owner: map<int, Owner>, m: Memory, q: seq<seq<int>>, slots: seq<Slot>, slots': seq<Slot>,
                  entries: seq<int>, base: int, p: int, h': Heap, m': Memory)
    requires SysInv(Snapshot(h, owner, m, q, slots, entries))
    requires ClientsOk(m, h.lo, h.hi, base, h.Live(), q, slots', entries)
    requires p in h.Live() && h' == Free(h, p) && Untouched(m, m', h.lo, h.hi, h'.Live()) && Full(m')
    requires !ClientBlock(q, slots', entries, p)
    ensures var s, t := Snapshot(h, owner, m, q, slots, entries), Snapshot(h', owner - {p}, m', q, slots', entries);
      && Frees(s, t, p) && SameContents(s, t, {})
      && t.nodes == s.nodes && t.queues == s.queues && t.entries == s.entries && t.bindings == s.bindings
    ensures h'.lo == h.lo && h'.hi == h.hi && ClientsOk(m', h.lo, h.hi, base, h'.Live(), q, slots', entries)
  {
    hide Inv, Free, UsedBlocks, Extents, Untouched, QueuesOk, Payloads, AllMessages, Registry.Bindings, NodesOwned,
         PagesOwned, EntriesOwned, ClientBlock;
    InvLaid(h);
    FreeKeepsInv(h, p);
    FreeMeaning(h, p);
    InvLaid(h');
    ClientsKept(m, m', h.lo, h.hi, base, h.Live(), h'.Live(), h'.Live(), q, slots', entries);
    PayloadsKept(m, m', h.lo, h.hi, h.Live(), h'.Live(), h'.Live());
    SnapshotShaped(h', owner - {p}, m', q, slots', entries);
  }

  /** A call that leaves the heap as it is and no protected byte changed. */
  lemma IdleFrame(h: Heap, owner: map<int, Owner>, m: Memory, q: seq<seq<int>>, slots: seq<Slot>, entries: seq<int>,
                  base: int, m': Memory)
    requires Laid(h) && Full(m) && ClientsOk(m, h.lo, h.hi, base, h.Live(), q, slots, entries)
    requires Untouched(m, m', h.lo, h.hi, h.Live())
    ensures Snapshot(h, owner, m', q, slots, entries) == Snapshot(h, owner, m, q, slots, entries)
    ensures ClientsOk(m', h.lo, h.hi, base, h.Live(), q, slots, entries)
  {
    hide UsedBlocks, Extents, Untouched, QueuesOk, AllMessages, Registry.Bindings;
    ClientsKept(m, m', h.lo, h.hi, base, h.Live(), h.Live(), h.Live(), q, slots, entries);
    PayloadsKept(m, m', h.lo, h.hi, h.Live(), h.Live(), h.Live());
    assert Payloads(m', h.Live()) == Payloads(m, h.Live());
  }

  /** The owner of the private block `p` writes into it. */
  lemma StoreFrame(h: Heap, owner: map<int, Owner>, m: Memory, q: seq<seq<int>>, slots: seq<Slot>, entries: seq<int>,
                   base: int, p: int, m': Memory)
    requires SysInv(Snapshot(h, owner, m, q, slots, entries)) && Full(m) && Full(m') && Headers(m, h.blocks)
    requires ClientsOk(m, h.lo, h.hi, base, h.Live(), q, slots, entries)
    requires p in owner && Private(owner[p]) && p in h.Live()
    requires forall a :: 0 <= a < |m| && !(p <= a < p + h.Live()[p]) ==> m'[a] == m[a]
    ensures var s, t := Snapshot(h, owner, m, q, slots, entries), Snapshot(h, owner, m', q, slots, entries);
      SameContents(s, t, {p}) && SameClients(s, t)
    ensures Headers(m', h.blocks) && ClientsOk(m', h.lo, h.hi, base, h.Live(), q, slots, entries)
  {
    hide Inv, Headers, Tiles, UsedBlocks, Extents, QueueOk, Messages, Payloads, AllMessages, Registry.Bindings,
         Registry.Chain, NodesOwned, PagesOwned, EntriesOwned, IsNode, Spread, Untouched;
    InvLaid(h);
    var s := Snapshot(h, owner, m, q, slots, entries);
    var live, kept := h.Live(), h.Live() - {p};
    LiveSpread(h.blocks, h.lo, h.hi);
    OutsidePayload(m, m', h.lo, h.hi, live, p);
    NotInStructures(s, p);
    PayloadWrite(m, m', h.blocks, h.lo, h.hi, p);
    QueuesKept(m, m', h.lo, h.hi, base, live, live, kept, q);
    assert AllMessages(m', q) == AllMessages(m, q);
    Registry.ChainUntouched(m, m', h.lo, h.hi, live, live, kept, entries);
    PayloadsBut(m, m', h.lo, h.hi, live, p);
    SnapshotShaped(h, owner, m', q, slots, entries);
  }

  /** A store to static data beside the list heads. */
  lemma StaticFrame(h: Heap, owner: map<int, Owner>, m: Memory, q: seq<seq<int>>, slots: seq<Slot>, entries: seq<int>,
                    base: int, a: int, m': Memory)
    requires Laid(h) && Full(m) && Full(m') && Headers(m, h.blocks)
    requires ClientsOk(m, h.lo, h.hi, base, h.Live(), q, slots, entries)
    requires 0 < a && (a < h.lo || h.hi <= a) && !(base <= a < base + HEADS_SIZE)
    requires forall x :: 0 <= x < |m| && x != a ==> m'[x] == m[x]
    ensures Snapshot(h, owner, m', q, slots, entries) == Snapshot(h, owner, m, q, slots, entries)
    ensures Headers(m', h.blocks) && ClientsOk(m', h.lo, h.hi, base, h.Live(), q, slots, entries)
  {
    hide Headers, Tiles, UsedBlocks, Extents, QueuesOk, Messages, Payloads, Registry.Chain, Registry.Bindings,
         OutByte;
    var live := h.Live();
    LiveSpread(h.blocks, h.lo, h.hi);
    OneOutByte(a);
    OutWrite(m, m', h.blocks, h.lo, h.hi, base, map[], q, 0, a, 1, 0);
    NodeCount(m, base, live, q);
    assert AllMessages(m', q) == AllMessages(m, q);
    NotInPayload(h.lo, h.hi, live, a);
    Registry.ChainKept(m, m', live, live, entries);
    PayloadsSame(m, m', live);
  }

  lemma OneOutByte(a: int)
    requires a != 0
    ensures forall x :: OutByte(0, a, 1, 0, x) <==> x == a
  {
  }

  lemma NotInPayload(lo: int, hi: int, live: map<int, int>, a: int)
    requires Spread(lo, hi, live) && (a < lo || hi <= a)
    ensures forall p :: p in live ==> !(p <= a < p + live[p])
  {
  }

  lemma PayloadsSame(m: Memory, n: Memory, live: map<int, int>)
    requires |m| == |n| && forall p, a :: p in live && p <= a < p + live[p] && 0 <= a < |m| ==> n[a] == m[a]
    ensures Payloads(n, live) == Payloads(m, live)
  {
    forall p | p in live && 0 <= p <= p + live[p] <= |m|
      ensures n[p..p + live[p]] == m[p..p + live[p]]
    {
      assert forall a :: p <= a < p + live[p] ==> n[a] == m[a];
    }
  }

  lemma OutsidePayload(m: Memory, n: Memory, lo: int, hi: int, live: map<int, int>, p: int)
    requires Spread(lo, hi, live) && p in live && |m| == |n|
    requires forall a :: 0 <= a < |m| && !(p <= a < p + live[p]) ==> n[a] == m[a]
    ensures Untouched(m, n, lo, hi, live - {p})
  {
  }

  lemma PayloadsBut(m: Memory, n: Memory, lo: int, hi: int, live: map<int, int>, p: int)
    requires Untouched(m, n, lo, hi, live - {p})
    ensures forall x :: x in live && x != p ==> Payloads(n, live)[x] == Payloads(m, live)[x]
  {
    PayloadsKept(m, n, lo, hi, live - {p}, live - {p}, live - {p});
    forall x | x in live && x != p
      ensures Payloads(n, live)[x] == Payloads(m, live)[x]
    {
      assert x in live - {p};
      assert Payloads(n, live)[x] == Payloads(n, live - {p})[x] && Payloads(m, live)[x] == Payloads(m, live - {p})[x];
    }
  }

  lemma NotInStructures(s: Sys, p: int)
    requires SysInv(s) && p in s.owner && Private(s.owner[p])
    ensures !IsNode(s.nodes, p) && p !in s.entries
  {
    hide Inv, IsNode;
    NodeOwner(s, p);
    assert p in s.entries <==> p in s.owner && s.owner[p] == RegistryEntry;
  }

  // ---------- message calls under the other subsystems ----------

  /** The private blocks that contain a byte stored for the caller of `ipc_receive`. */
  ghost function Touched(owner: map<int, Owner>, live: map<int, int>, fromPid: int, buffer: int, size: int,
                         kind: int): set<int> {
    set p | p in owner && p in live && Private(owner[p])
            && (exists a :: OutByte(fromPid, buffer, size, kind, a) && p <= a < p + live[p])
  }

  /** A byte the caller may have stored to: static data beside the list heads, or the payload
      of a private block. */
  ghost predicate CallerByte(lo: int, hi: int, base: int, owner: map<int, Owner>, live: map<int, int>, a: int) {
    || ((a < lo || hi <= a) && !(base <= a < base + HEADS_SIZE))
    || (exists p :: p in owner && p in live && Private(owner[p]) && p <= a < p + live[p])
  }

  /** In a block with a caller's byte there is no room for anybody else's structures. */
  lemma OutBlocks(s: Sys, base: int, fromPid: int, buffer: int, size: int, kind: int)
    requires SysInv(s)
    requires forall a :: OutByte(fromPid, buffer, size, kind, a) ==>
        CallerByte(s.heap.lo, s.heap.hi, base, s.owner, s.heap.Live(), a)
    ensures OutsElsewhere(s.heap.lo, s.heap.hi, base, IpcImage.Others(s.heap.Live(), s.nodes), fromPid, buffer, size,
        kind)
    ensures forall p, a ::
              p in s.heap.Live() && p !in Touched(s.owner, s.heap.Live(), fromPid, buffer, size, kind)
                  && p <= a < p + s.heap.Live()[p] ==>
                !OutByte(fromPid, buffer, size, kind, a)
    ensures forall p :: p in Touched(s.owner, s.heap.Live(), fromPid, buffer, size, kind) ==>
        p in s.owner && Private(s.owner[p])
  {
    hide Inv, OutByte, UsedBlocks, Extents, Tiles, NodesOwned, PagesOwned, EntriesOwned, IsNode, Spread;
    var live, others := s.heap.Live(), IpcImage.Others(s.heap.Live(), s.nodes);
    InvLaid(s.heap);
    LiveSpread(s.heap.blocks, s.heap.lo, s.heap.hi);
    OthersOwned(s);
    forall a | OutByte(fromPid, buffer, size, kind, a)
      ensures Elsewhere(s.heap.lo, s.heap.hi, base, others, a)
    {
      assert CallerByte(s.heap.lo, s.heap.hi, base, s.owner, live, a);
    }
    forall p, a | p in live && p !in Touched(s.owner, live, fromPid, buffer, size, kind) && p <= a < p + live[p]
      ensures !OutByte(fromPid, buffer, size, kind, a)
    {
      if OutByte(fromPid, buffer, size, kind, a) {
        assert CallerByte(s.heap.lo, s.heap.hi, base, s.owner, live, a);
        var x :| x in s.owner && x in live && Private(s.owner[x]) && x <= a < x + live[x];
        OneBlock(s.heap.lo, s.heap.hi, live, p, x, a);
      }
    }
  }

  lemma OneBlock(lo: int, hi: int, live: map<int, int>, p: int, q: int, a: int)
    requires Spread(lo, hi, live) && p in live && q in live && p <= a < p + live[p] && q <= a < q + live[q]
    ensures p == q
  {
  }

  /** What an IPC call leaves alone: sandbox pages, the registry, and every payload that is
      neither a queue node nor a block the caller asked to receive into. */
  lemma IpcFrame(h: Heap, owner: map<int, Owner>, m: Memory, q: seq<seq<int>>, slots: seq<Slot>, entries: seq<int>,
                 base: int, h': Heap, owner': map<int, Owner>, m': Memory, q': seq<seq<int>>, fromPid: int,
                 buffer: int, size: int, kind: int)
    requires SysInv(Snapshot(h, owner, m, q, slots, entries))
    requires ClientsOk(m, h.lo, h.hi, base, h.Live(), q, slots, entries)
    requires SparedBut(m, m', h.lo, h.hi, base, IpcImage.Others(h.Live(), q), fromPid, buffer, size, kind)
    requires Laid(h') && Full(m')
    requires forall p :: p in owner && !owner[p].QueueNode? && p in h.Live() ==>
        p in h'.Live() && h'.Live()[p] == h.Live()[p]
    requires forall p :: p in h.Live() && p in h'.Live() ==> h'.Live()[p] == h.Live()[p]
    requires forall a :: OutByte(fromPid, buffer, size, kind, a) ==> CallerByte(h.lo, h.hi, base, owner, h.Live(), a)
    ensures PagesOk(slots, h'.Live()) && Registry.Chain(m', h'.Live(), entries)
    ensures var s, t := Snapshot(h, owner, m, q, slots, entries), Snapshot(h', owner', m', q', slots, entries);
      && SameContents(s, t, AllNodes(s) + Touched(owner, h.Live(), fromPid, buffer, size, kind))
      && t.slots == s.slots && t.entries == s.entries && t.bindings == s.bindings
  {
    hide Inv, UsedBlocks, Extents, SparedBut, QueuesOk, Payloads, AllMessages, Registry.Bindings, Registry.Chain,
         NodesOwned, PagesOwned, EntriesOwned, ClientBlock, OutByte, CallerByte, Touched, Laid;
    var s := Snapshot(h, owner, m, q, slots, entries);
    var others, touched := IpcImage.Others(h.Live(), q), Touched(owner, h.Live(), fromPid, buffer, size, kind);
    OthersOwned(s);
    OutBlocks(s, base, fromPid, buffer, size, kind);
    SlotOwners(s);
    EntryOwners(s);
    PagesKept(slots, h.Live(), h'.Live());
    RegistrySpared(m, m', h.lo, h.hi, base, h.Live(), h'.Live(), others, entries, fromPid, buffer, size, kind);
    PayloadsSpared(m, m', h.lo, h.hi, base, h.Live(), h'.Live(), others, fromPid, buffer, size, kind,
        AllNodes(s) + touched);
    SnapshotShaped(h', owner', m', q', slots, entries);
  }

  lemma SlotOwners(s: Sys)
    requires SysInv(s)
    ensures forall i :: 0 <= i < |s.slots| && s.slots[i].used ==>
        s.slots[i].memory in s.owner && !s.owner[s.slots[i].memory].QueueNode? && s.slots[i].memory in s.heap.Live()
  {
    hide Inv;
  }

  lemma EntryOwners(s: Sys)
    requires SysInv(s)
    ensures forall p :: p in s.entries ==> p in s.owner && s.owner[p] == RegistryEntry && p in s.heap.Live()
    ensures forall p :: p in s.owner <==> p in s.heap.Live()
  {
    hide Inv;
  }

  // ---------- snapshots unfolded ----------

  lemma Keys(h: Heap, owner: map<int, Owner>, m: Memory, q: seq<seq<int>>, slots: seq<Slot>, entries: seq<int>)
    requires SysInv(Snapshot(h, owner, m, q, slots, entries))
    ensures owner.Keys == h.Live().Keys && Laid(h)
  {
    hide Inv;
    InvLaid(h);
  }

  /** A block of an outside caller or of a loaded module is none of the subsystems'. */
  lemma NotClient(h: Heap, owner: map<int, Owner>, m: Memory, q: seq<seq<int>>, slots: seq<Slot>, entries: seq<int>,
                  p: int)
    requires SysInv(Snapshot(h, owner, m, q, slots, entries)) && p in owner && owner[p] == Caller
    ensures !ClientBlock(q, slots, entries, p)
  {
    hide Inv, SysInv, ClientBlock;
    if ClientBlock(q, slots, entries, p) {
      ClientOwners(Snapshot(h, owner, m, q, slots, entries), p);
    }
  }

  lemma Fields(h: Heap, owner: map<int, Owner>, m: Memory, q: seq<seq<int>>, slots: seq<Slot>, entries: seq<int>)
    ensures var s := Snapshot(h, owner, m, q, slots, entries);
      && s.heap == h && s.owner == owner && s.nodes == q && s.slots == slots && s.entries == entries
      && s.queues == AllMessages(m, q) && s.bindings == Registry.Bindings(m, entries)
  {
  }

  /** The state right after boot. */
  lemma BootInv(h: Heap, m: Memory, q: seq<seq<int>>, slots: seq<Slot>)
    requires Inv(h) && h.Live() == map[] && Full(m) && q == seq(QUEUES, _ => []) && Fresh(slots)
    ensures SysInv(Snapshot(h, map[], m, q, slots, []))
    ensures forall i :: 0 <= i < QUEUES ==> AllMessages(m, q)[i] == []
  {
    hide Inv, UsedBlocks, Extents;
    InvLaid(h);
    SnapshotShaped(h, map[], m, q, slots, []);
  }

  lemma NoTouched(owner: map<int, Owner>, live: map<int, int>)
    ensures Touched(owner, live, 0, 0, 0, 0) == {}
  {
  }

  /** The queues after something has been appended to queue `i`. */
  lemma QueuesAfterSend(m: Memory, n: Memory, q: seq<seq<int>>, r: seq<seq<int>>, i: int, more: seq<Message>)
    requires 0 <= i < |q| == |r| == QUEUES
    requires forall j :: 0 <= j < QUEUES ==> Messages(n, r[j]) == Messages(m, q[j]) + (if j == i then more else [])
    ensures AllMessages(n, r) == AllMessages(m, q)[i := AllMessages(m, q)[i] + more]
  {
    hide Messages;
    var a, b := AllMessages(m, q), AllMessages(n, r);
    forall j | 0 <= j < QUEUES
      ensures b[j] == a[i := a[i] + more][j]
    {
      if j != i { assert a[j] + [] == a[j]; }
    }
    assert b == a[i := a[i] + more];
  }

  /** The queues after the first message of queue `i` has been taken. */
  lemma QueuesAfterTake(m: Memory, n: Memory, q: seq<seq<int>>, r: seq<seq<int>>, i: int)
    requires 0 <= i < |q| == |r| == QUEUES
    requires |Messages(m, q[i])| > 0
    requires forall j :: 0 <= j < QUEUES ==>
        Messages(n, r[j]) == if j == i then Messages(m, q[j])[1..] else Messages(m, q[j])
    ensures AllMessages(n, r) == AllMessages(m, q)[i := AllMessages(m, q)[i][1..]]
  {
  }

  lemma NodeCount(m: Memory, base: int, live: map<int, int>, q: seq<seq<int>>)
    requires QueuesOk(m, base, live, q)
    ensures |q| == QUEUES
  {
  }

  /** `ipc_send` to an existing queue, as a step of the system. */
  lemma SendFrame(h: Heap, owner: map<int, Owner>, m: Memory, q: seq<seq<int>>, slots: seq<Slot>, entries: seq<int>,
                  base: int, h': Heap, p: int, m': Memory, q': seq<seq<int>>, from: word, to: word, kind: word,
                  bytes: seq<byte>)
    requires SysInv(Snapshot(h, owner, m, q, slots, entries))
    requires ClientsOk(m, h.lo, h.hi, base, h.Live(), q, slots, entries)
    requires DATA + |bytes| <= 0xFFFF_FFF8 && to < QUEUES && Full(m') && (h', p) == Alloc(h, DATA + |bytes|)
    requires q' == if p == 0 then q else q[to := q[to] + [p]]
    requires Spared(m, m', h.lo, h.hi, base, IpcImage.Others(h.Live(), q))
    requires forall j :: 0 <= j < QUEUES ==>
                           Messages(m', q'[j]) == Messages(m, q[j])
                               + (if p != 0 && j == to then [Message(from, to, kind, bytes)] else [])
    ensures PagesOk(slots, h'.Live()) && Registry.Chain(m', h'.Live(), entries)
    ensures Step(Snapshot(h, owner, m, q, slots, entries), Send(from, to, kind, bytes, p),
                 Snapshot(h', WithOwner(owner, p, QueueNode(to)), m', q', slots, entries))
  {
    hide Inv, SysInv, Alloc, UsedBlocks, Extents, QueuesOk, Registry.Chain, PagesOk, Snapshot, SameContents, Spared,
         SparedBut, Messages, AllMessages, Touched, GrantLaw;
    var owner' := WithOwner(owner, p, QueueNode(to));
    var s, t := Snapshot(h, owner, m, q, slots, entries), Snapshot(h', owner', m', q', slots, entries);
    Keys(h, owner, m, q, slots, entries);
    NodeCount(m, base, h.Live(), q);
    AllocMeaning(h, DATA + |bytes|);
    SparedPlain(m, m', h.lo, h.hi, base, IpcImage.Others(h.Live(), q));
    IpcFrame(h, owner, m, q, slots, entries, base, h', owner', m', q', 0, 0, 0, 0);
    NoTouched(owner, h.Live());
    assert AllNodes(s) + {} == AllNodes(s);
    Fields(h, owner, m, q, slots, entries);
    Fields(h', owner', m', q', slots, entries);
    var more := if p != 0 then [Message(from, to, kind, bytes)] else [];
    QueuesAfterSend(m, m', q, q', to, more);
    SameIfNothing(AllMessages(m, q), to);
  }

  lemma SameIfNothing(a: seq<seq<Message>>, i: int)
    requires 0 <= i < |a|
    ensures a[i := a[i] + []] == a
  {
    assert a[i] + [] == a[i];
  }

  /** Taking the first message of queue `pid`, as a step of the system. */
  lemma TakeFrame(h: Heap, owner: map<int, Owner>, m: Memory, q: seq<seq<int>>, slots: seq<Slot>, entries: seq<int>,
                  base: int, h': Heap, m': Memory, q': seq<seq<int>>, pid: word, fromPid: int, buffer: int, size: int,
                  kind: int)
    requires SysInv(Snapshot(h, owner, m, q, slots, entries))
    requires ClientsOk(m, h.lo, h.hi, base, h.Live(), q, slots, entries)
    requires pid < QUEUES && |q| == QUEUES && q[pid] != [] && Messages(m, q[pid]) != [] && Full(m')
    requires q[pid][0] in h.Live() && h' == Free(h, q[pid][0]) && q' == q[pid := q[pid][1..]]
    requires SparedBut(m, m', h.lo, h.hi, base, IpcImage.Others(h.Live(), q), fromPid, buffer, size, kind)
    requires forall a :: OutByte(fromPid, buffer, size, kind, a) ==> CallerByte(h.lo, h.hi, base, owner, h.Live(), a)
    requires forall j :: 0 <= j < QUEUES ==>
        Messages(m', q'[j]) == if j == pid then Messages(m, q[j])[1..] else Messages(m, q[j])
    ensures PagesOk(slots, h'.Live()) && Registry.Chain(m', h'.Live(), entries)
    ensures var s, t := Snapshot(h, owner, m, q, slots, entries),
        Snapshot(h', owner - {q[pid][0]}, m', q', slots, entries);
      HasMail(s, pid)
          && Takes(s, t, pid, [Messages(m, q[pid])[0]], Touched(owner, h.Live(), fromPid, buffer, size, kind))
  {
    hide Inv, SysInv, Free, UsedBlocks, Extents, QueuesOk, Registry.Chain, PagesOk, Snapshot, SameContents, SparedBut,
         Messages, AllMessages, Touched, OutByte, CallerByte;
    var p := q[pid][0];
    var owner' := owner - {p};
    var s, t := Snapshot(h, owner, m, q, slots, entries), Snapshot(h', owner', m', q', slots, entries);
    Keys(h, owner, m, q, slots, entries);
    Fields(h, owner, m, q, slots, entries);
    Fields(h', owner', m', q', slots, entries);
    FreeMeaning(h, p);
    HeadIsNode(q, pid);
    NodeOwner(s, p);
    IpcFrame(h, owner, m, q, slots, entries, base, h', owner', m', q', fromPid, buffer, size, kind);
    OutBlocks(s, base, fromPid, buffer, size, kind);
    QueuesAfterTake(m, m', q, q', pid);
  }

  lemma HeadIsNode(q: seq<seq<int>>, i: int)
    requires 0 <= i < |q| && q[i] != []
    ensures IsNode(q, q[i][0])
  {
  }

  /** Taking from an empty queue, or for a process beyond the table, does nothing. */
  lemma NoMail(s: Sys, pid: word, size: word)
    requires pid >= QUEUES || !HasMail(s, pid)
    ensures Step(s, Receive(pid, size, [], {}), s) && Step(s, Process(pid, []), s)
  {
  }

  lemma TakenStep(s: Sys, t: Sys, pid: word, size: word, took: seq<Message>, touched: set<int>)
    requires HasMail(s, pid) && Takes(s, t, pid, took, touched)
    ensures Step(s, Receive(pid, size, took, touched), t)
    ensures touched == {} ==> Step(s, Process(pid, took), t)
  {
  }

  // ---------- sandbox, registry and loader calls as steps ----------

  lemma TableFull(s: Sys)
    requires LowestFree(s.slots, 0) == |s.slots|
    ensures Step(s, SandboxCreate(-1, 0), s)
  {
  }

  lemma CreateFrame(h: Heap, owner: map<int, Owner>, m: Memory, q: seq<seq<int>>, slots: seq<Slot>, entries: seq<int>,
                    h': Heap, owner': map<int, Owner>, m': Memory, slots': seq<Slot>, i: int, p: int)
    requires var s, t := Snapshot(h, owner, m, q, slots, entries), Snapshot(h', owner', m', q, slots, entries);
      Grants(s, t, SANDBOX_MEMORY_SIZE, p, SandboxPage(i)) && SameContents(s, t, {}) && SameClients(s, t)
    requires i == LowestFree(slots, 0) < |slots| && slots' == After(slots, if p == 0 then Failed(i) else Created(i, p))
    ensures Step(Snapshot(h, owner, m, q, slots, entries), SandboxCreate(i, p),
        Snapshot(h', owner', m', q, slots', entries))
  {
    hide After, LowestFree, Grants, SameContents, Snapshot;
    var s, t := Snapshot(h, owner, m, q, slots, entries), Snapshot(h', owner', m', q, slots, entries);
    Fields(h, owner, m, q, slots, entries);
    OtherTable(h', owner', m', q, slots, slots', entries);
    NewTable(s, t, slots', p, SandboxPage(i));
  }

  lemma OtherTable(h: Heap, owner: map<int, Owner>, m: Memory, q: seq<seq<int>>, slots: seq<Slot>, slots': seq<Slot>,
                   entries: seq<int>)
    ensures Snapshot(h, owner, m, q, slots', entries) == Snapshot(h, owner, m, q, slots, entries).(slots := slots')
  {
  }

  lemma NewTable(s: Sys, t: Sys, slots: seq<Slot>, p: int, o: Owner)
    requires Grants(s, t, SANDBOX_MEMORY_SIZE, p, o) && SameContents(s, t, {})
    ensures Grants(s, t.(slots := slots), SANDBOX_MEMORY_SIZE, p, o) && SameContents(s, t.(slots := slots), {})
  {
  }

  lemma NoSandbox(s: Sys, id: int)
    requires !UsedSlot(s, id)
    ensures Step(s, SandboxDestroy(id, false), s)
  {
  }

  /** A destroyed sandbox leaves a block that no subsystem uses. */
  lemma Abandoned(h: Heap, owner: map<int, Owner>, m: Memory, q: seq<seq<int>>, slots: seq<Slot>, entries: seq<int>,
                  base: int, id: int, slots': seq<Slot>)
    requires SysInv(Snapshot(h, owner, m, q, slots, entries))
    requires ClientsOk(m, h.lo, h.hi, base, h.Live(), q, slots, entries)
    requires 0 <= id < |slots| && slots[id].used && slots' == After(slots, Destroyed(id))
    ensures ClientsOk(m, h.lo, h.hi, base, h.Live(), q, slots', entries)
    ensures !ClientBlock(q, slots', entries, slots[id].memory) && slots[id].memory in owner
  {
    hide Inv, QueuesOk, Registry.Chain, IsNode, NodesOwned;
    var s, p := Snapshot(h, owner, m, q, slots, entries), slots[id].memory;
    NodeOwner(s, p);
    assert p in s.owner && s.owner[p] == SandboxPage(id);
    assert p in s.entries <==> p in s.owner && s.owner[p] == RegistryEntry;
    forall j | 0 <= j < |slots'| && slots'[j].used
      ensures slots'[j].memory != p
    {
      assert slots'[j] == slots[j] && s.owner[slots[j].memory] == SandboxPage(j);
    }
  }

  lemma DestroyFrame(h: Heap, owner: map<int, Owner>, m: Memory, q: seq<seq<int>>, slots: seq<Slot>, entries: seq<int>,
                     h': Heap, owner': map<int, Owner>, m': Memory, slots': seq<Slot>, id: int)
    requires 0 <= id < |slots| && slots[id].used && slots' == After(slots, Destroyed(id))
    requires var s, t := Snapshot(h, owner, m, q, slots, entries), Snapshot(h', owner', m', q, slots', entries);
      && Frees(s, t, slots[id].memory) && SameContents(s, t, {})
      && t.nodes == s.nodes && t.queues == s.queues && t.entries == s.entries && t.bindings == s.bindings
    ensures Step(Snapshot(h, owner, m, q, slots, entries), SandboxDestroy(id, true),
        Snapshot(h', owner', m', q, slots', entries))
  {
    hide Free, Payloads, AllMessages, Registry.Bindings, After, Frees, SameContents;
  }

  lemma CapsEvents(s: Sys, t: Sys, id: int, caps: bv32)
    requires t == s.(slots := t.slots)
    ensures UsedSlot(s, id) && t.slots == After(s.slots, Granted(id, caps)) ==> Step(s, SandboxGrant(id, caps, true), t)
    ensures UsedSlot(s, id) && t.slots == After(s.slots, Revoked(id, caps)) ==>
        Step(s, SandboxRevoke(id, caps, true), t)
    ensures !UsedSlot(s, id) && t.slots == s.slots ==>
        Step(s, SandboxGrant(id, caps, false), t) && Step(s, SandboxRevoke(id, caps, false), t)
  {
    hide After;
  }

  /** A registration, as a step of the system. */
  lemma RegisterFrame(h: Heap, owner: map<int, Owner>, m: Memory, q: seq<seq<int>>, slots: seq<Slot>,
                      entries: seq<int>, base: int, h': Heap, m': Memory, entries': seq<int>, name: seq<byte>,
                      iface: word, p: int)
    requires SysInv(Snapshot(h, owner, m, q, slots, entries))
    requires ClientsOk(m, h.lo, h.hi, base, h.Live(), q, slots, entries)
    requires (h', p) == Alloc(h, Registry.ENTRY_SIZE) && Untouched(m, m', h.lo, h.hi, h.Live()) && Full(m')
    requires entries' == if p == 0 then entries else [p] + entries
    requires Registry.Bindings(m', entries') ==
             if p == 0 then Registry.Bindings(m, entries)
                 else [Registry.Binding(Registry.CutName(name), iface)] + Registry.Bindings(m, entries)
    ensures Step(Snapshot(h, owner, m, q, slots, entries), Register(name, iface, p),
                 Snapshot(h', WithOwner(owner, p, RegistryEntry), m', q, slots, entries'))
    ensures QueuesOk(m', base, h'.Live(), q) && PagesOk(slots, h'.Live())
  {
    hide Inv, SysInv, Alloc, UsedBlocks, Extents, Untouched, QueuesOk, PagesOk, Registry.Chain, Payloads, AllMessages,
         Registry.Bindings, Registry.CutName, Grants;
    var owner' := WithOwner(owner, p, RegistryEntry);
    GrantFrame(h, owner, m, q, slots, entries, base, Registry.ENTRY_SIZE, h', p, m', RegistryEntry);
    GrantsFields(Snapshot(h, owner, m, q, slots, entries), Snapshot(h', owner', m', q, slots, entries),
                 Snapshot(h', owner', m', q, slots, entries'), Registry.ENTRY_SIZE, p, RegistryEntry);
  }

  lemma GrantsFields(s: Sys, t: Sys, u: Sys, n: word, p: int, o: Owner)
    requires Grants(s, t, n, p, o) && u.heap == t.heap && u.owner == t.owner
    ensures Grants(s, u, n, p, o)
  {
  }

  /** A sequence of grants to a loaded module. */
  lemma LoadFrame(h: Heap, owner: map<int, Owner>, m: Memory, q: seq<seq<int>>, slots: seq<Slot>, entries: seq<int>,
                  base: int, sizes: seq<word>, h': Heap, ps: seq<int>, denied: word, m': Memory, image: seq<byte>,
                  ss: seq<Loader.Segment>)
    requires SysInv(Snapshot(h, owner, m, q, slots, entries))
    requires ClientsOk(m, h.lo, h.hi, base, h.Live(), q, slots, entries)
    requires Loader.AllocSeq(h, sizes) == (h', ps) && Untouched(m, m', h.lo, h.hi, h.Live()) && Full(m')
    requires Loader.AllPlaced(m', h'.Live(), h.Live(), image, ss, ps) && h'.lo == h.lo && h'.hi == h.hi
    requires denied > 0 ==> Alloc(h', denied).1 == 0
    ensures Step(Snapshot(h, owner, m, q, slots, entries), Load(sizes, ps, denied),
                 Snapshot(h', WithOwners(owner, ps, ElfSegment), m', q, slots, entries))
    ensures ClientsOk(m', h.lo, h.hi, base, h'.Live(), q, slots, entries)
  {
    hide Inv, Alloc, UsedBlocks, Extents, Untouched, QueuesOk, Payloads, AllMessages, Registry.Bindings, NodesOwned,
         PagesOwned, EntriesOwned, WithOwners, Loader.AllocSeq;
    var owner' := WithOwners(owner, ps, ElfSegment);
    NoneNull(m', h'.Live(), h.Live(), image, ss, ps);
    LoadKeeps(h, sizes, h', ps, owner);
    InvLaid(h');
    ClientsKept(m, m', h.lo, h.hi, base, h.Live(), h'.Live(), h.Live(), q, slots, entries);
    PayloadsKept(m, m', h.lo, h.hi, h.Live(), h'.Live(), h.Live());
    SnapshotShaped(h', owner', m', q, slots, entries);
  }

  lemma NoneNull(m: Memory, live: map<int, int>, before: map<int, int>, image: seq<byte>, ss: seq<Loader.Segment>,
                 ps: seq<int>)
    requires Loader.AllPlaced(m, live, before, image, ss, ps)
    ensures 0 !in ps
  {
    forall k | 0 <= k < |ps|
      ensures ps[k] != 0
    {
      assert Loader.Placed(m, live, before, image, ss[k], ps[k]);
    }
  }
}
