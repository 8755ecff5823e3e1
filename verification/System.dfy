/** The kernel heap with everybody who owns memory in it, as one state machine: what a step of
    any of them may change, who owns which live block, and what that means for whole runs. */
module System {
  import opened Bytes
  import opened Blocks
  import opened HeapModel
  import opened HeapRuns
  import opened IpcImage
  import opened SandboxTable
  import Registry
  import Loader

  datatype Owner = Caller | QueueNode(pid: int) | SandboxPage(id: int) | RegistryEntry | ElfSegment

  datatype Sys = Sys(
    heap: Heap,
    owner: map<int, Owner>,            // of every live block
    contents: map<int, seq<byte>>,     // the payload of every live block
    nodes: seq<seq<int>>,              // the blocks of the queues
    queues: seq<seq<Message>>,         // and the messages in them
    slots: seq<Slot>,
    entries: seq<int>,                 // the blocks of the registry
    bindings: seq<Registry.Binding>)

  /** One call into the kernel, with its results. A pointer result is 0 for NULL. A load has
      the sizes that were granted, their blocks, and the size that was turned down, 0 if none. */
  datatype Event =
    | Malloc(n: word, p: int)
    | Release(p: int)
    | Store(p: int)
    | Send(from: word, to: word, kind: word, data: seq<byte>, p: int)
    | Receive(pid: word, size: word, took: seq<Message>, touched: set<int>)
    | Process(pid: word, took: seq<Message>)
    | SandboxCreate(slot: int, p: int)
    | SandboxDestroy(id: int, ok: bool)
    | SandboxGrant(id: int, caps: bv32, ok: bool)
    | SandboxRevoke(id: int, caps: bv32, ok: bool)
    | SandboxAlloc(id: int, n: word, p: int)
    | SandboxSyscall(id: int, number: int, r: int)
    | Register(name: seq<byte>, iface: word, p: int)
    | Get(name: seq<byte>, iface: word)
    | Load(sizes: seq<word>, ps: seq<int>, denied: word)

  // ---------- steps ----------

  /** Blocks whose owner may fill them at will; queue nodes and registry entries belong to
      the kernel's own structures. */
  predicate Private(o: Owner) {
    o.Caller? || o.SandboxPage? || o.ElfSegment?
  }

  function WithOwner(owner: map<int, Owner>, p: int, o: Owner): map<int, Owner> {
    if p == 0 then owner else owner[p := o]
  }

  function WithOwners(owner: map<int, Owner>, ps: seq<int>, o: Owner): map<int, Owner> {
    if |ps| == 0 then owner else WithOwners(owner, ps[..|ps| - 1], o)[ps[|ps| - 1] := o]
  }

  /** Every live block has its payload bytes. */
  ghost predicate Shaped(s: Sys) {
    && s.contents.Keys == s.heap.Live().Keys
    && forall p :: p in s.contents ==> p in s.heap.Live() && |s.contents[p]| == s.heap.Live()[p]
  }

  /** Payloads that are live before and after are the same, except those in `changed`. */
  ghost predicate SameContents(s: Sys, t: Sys, changed: set<int>) {
    Shaped(t) && forall p :: p in s.contents && p in t.contents && p !in changed ==> t.contents[p] == s.contents[p]
  }

  /** The blocks of the message queues, whose links change with any list operation. */
  ghost function AllNodes(s: Sys): set<int> {
    set p | p in s.owner && s.owner[p].QueueNode?
  }

  ghost predicate SameClients(s: Sys, t: Sys) {
    t.nodes == s.nodes && t.queues == s.queues && t.slots == s.slots && t.entries == s.entries
        && t.bindings == s.bindings
  }

  /** A grant of `n` bytes to owner `o`, by itself. */
  ghost predicate Grants(s: Sys, t: Sys, n: word, p: int, o: Owner) {
    (t.heap, p) == Alloc(s.heap, n) && t.owner == WithOwner(s.owner, p, o)
  }

  /** The release of the live block `p`, by itself. */
  ghost predicate Frees(s: Sys, t: Sys, p: int) {
    p in s.heap.Live() && t.heap == Free(s.heap, p) && t.owner == s.owner - {p}
  }

  /** The first message leaves queue `pid`, and its node is released. */
  ghost predicate Takes(s: Sys, t: Sys, pid: int, took: seq<Message>, touched: set<int>)
    requires 0 <= pid < |s.queues| && pid < |s.nodes|
  {
    && s.queues[pid] != [] && s.nodes[pid] != []
    && took == [s.queues[pid][0]]
    && Frees(s, t, s.nodes[pid][0])
    && t.nodes == s.nodes[pid := s.nodes[pid][1..]]
    && t.queues == s.queues[pid := s.queues[pid][1..]]
    && (forall p :: p in touched ==> p in s.owner && Private(s.owner[p]))
    && SameContents(s, t, AllNodes(s) + touched)
    && t.slots == s.slots && t.entries == s.entries && t.bindings == s.bindings
  }

  ghost predicate HasMail(s: Sys, pid: int) {
    0 <= pid < QUEUES && |s.queues| == |s.nodes| == QUEUES && s.queues[pid] != []
  }

  predicate UsedSlot(s: Sys, id: int) {
    0 <= id < |s.slots| && s.slots[id].used
  }

  ghost predicate Step(s: Sys, e: Event, t: Sys) {
    match e
    case Malloc(n, p) =>
      Grants(s, t, n, p, Caller) && SameContents(s, t, {}) && SameClients(s, t)
    case Release(p) =>
      if p in s.owner then s.owner[p] == Caller && Frees(s, t, p) && SameContents(s, t, {}) && SameClients(s, t)
      else t == s
    case Store(p) =>
      && t.heap == s.heap && t.owner == s.owner && SameClients(s, t)
      && SameContents(s, t, {p}) && (p in s.owner ==> Private(s.owner[p]))
    case Send(from, to, kind, data, p) =>
      if to >= QUEUES then p == 0 && t == s
      else
        && |s.nodes| == |s.queues| == QUEUES && DATA + |data| <= 0xFFFF_FFF8
        && Grants(s, t, DATA + |data|, p, QueueNode(to))
        && t.nodes == (if p == 0 then s.nodes else s.nodes[to := s.nodes[to] + [p]])
        && t.queues == (if p == 0 then s.queues else s.queues[to := s.queues[to] + [Message(from, to, kind, data)]])
        && SameContents(s, t, AllNodes(s))
        && t.slots == s.slots && t.entries == s.entries && t.bindings == s.bindings
    case Receive(pid, size, took, touched) =>
      if HasMail(s, pid) then Takes(s, t, pid, took, touched) else took == [] && t == s
    case Process(pid, took) =>
      if HasMail(s, pid) then Takes(s, t, pid, took, {}) else took == [] && t == s
    case SandboxCreate(slot, p) =>
      if slot == -1 then p == 0 && t == s && LowestFree(s.slots, 0) == |s.slots|
      else
        && slot == LowestFree(s.slots, 0) < |s.slots|
        && Grants(s, t, SANDBOX_MEMORY_SIZE, p, SandboxPage(slot))
        && t.slots == After(s.slots, if p == 0 then Failed(slot) else Created(slot, p))
        && SameContents(s, t, {}) && t.nodes == s.nodes && t.queues == s.queues && t.entries == s.entries
            && t.bindings == s.bindings
    case SandboxDestroy(id, ok) =>
      && (ok <==> UsedSlot(s, id))
      && if ok then
           && Frees(s, t, s.slots[id].memory) && t.slots == After(s.slots, Destroyed(id))
           && SameContents(s, t, {}) && t.nodes == s.nodes && t.queues == s.queues && t.entries == s.entries
               && t.bindings == s.bindings
         else t == s
    case SandboxGrant(id, caps, ok) =>
      (ok <==> UsedSlot(s, id)) && t == if ok then s.(slots := After(s.slots, Granted(id, caps))) else s
    case SandboxRevoke(id, caps, ok) =>
      (ok <==> UsedSlot(s, id)) && t == if ok then s.(slots := After(s.slots, Revoked(id, caps))) else s
    case SandboxAlloc(id, n, p) =>
      if Permits(s.slots, id, CAP_ACCESS_MEMORY) then Grants(s, t, n, p, Caller) && SameContents(s, t, {})
          && SameClients(s, t)
      else p == 0 && t == s
    case SandboxSyscall(id, number, r) =>
      && t == s && (r == 0 || r == -1)
      && (r == 0 <==> number == SYS_IPC_SEND && Permits(s.slots, id, CAP_SYSCALL) && Permits(s.slots, id, CAP_IPC))
    case Register(name, iface, p) =>
      && Grants(s, t, Registry.ENTRY_SIZE, p, RegistryEntry)
      && t.entries == (if p == 0 then s.entries else [p] + s.entries)
      && t.bindings == (if p == 0 then s.bindings else [Registry.Binding(Registry.CutName(name), iface)] + s.bindings)
      && SameContents(s, t, {}) && t.nodes == s.nodes && t.queues == s.queues && t.slots == s.slots
    case Get(name, iface) =>
      t == s && iface == Registry.Lookup(s.bindings, name)
    case Load(sizes, ps, denied) =>
      && Loader.AllocSeq(s.heap, sizes) == (t.heap, ps) && 0 !in ps
      && (denied > 0 ==> Alloc(t.heap, denied).1 == 0)
      && t.owner == WithOwners(s.owner, ps, ElfSegment)
      && SameContents(s, t, {}) && SameClients(s, t)
  }

  // ---------- the invariant ----------

  /** Every live block has exactly one owner. */
  ghost predicate Owned(s: Sys) {
    s.owner.Keys == s.heap.Live().Keys && 0 !in s.owner
  }

  ghost predicate Distinct(ps: seq<int>) {
    forall i, j :: 0 <= i < j < |ps| ==> ps[i] != ps[j]
  }

  /** Queue `i` owns exactly its nodes, one for each message. */
  ghost predicate NodesOwned(s: Sys) {
    && |s.nodes| == |s.queues| == QUEUES
    && (forall i :: 0 <= i < QUEUES ==> |s.nodes[i]| == |s.queues[i]| && Distinct(s.nodes[i]))
    && (forall i, p :: 0 <= i < QUEUES ==> (p in s.nodes[i] <==> p in s.owner && s.owner[p] == QueueNode(i)))
    && (forall p :: p in s.owner && s.owner[p].QueueNode? ==> 0 <= s.owner[p].pid < QUEUES)
  }

  /** Sandbox `i` in use owns exactly one block, of at least a page. */
  ghost predicate PagesOwned(s: Sys) {
    && |s.slots| == SLOTS
    && (forall i :: 0 <= i < SLOTS && s.slots[i].used ==>
          var p := s.slots[i].memory;
          p in s.owner && s.owner[p] == SandboxPage(i) && p in s.heap.Live() && s.heap.Live()[p] >= SANDBOX_MEMORY_SIZE)
    && (forall p :: p in s.owner && s.owner[p].SandboxPage? ==>
          0 <= s.owner[p].id < SLOTS && s.slots[s.owner[p].id].used && s.slots[s.owner[p].id].memory == p)
  }

  /** The registry owns exactly its entries, one for each binding. */
  ghost predicate EntriesOwned(s: Sys) {
    && |s.entries| == |s.bindings|
    && (forall p :: p in s.entries <==> p in s.owner && s.owner[p] == RegistryEntry)
  }

  ghost predicate SysInv(s: Sys) {
    Inv(s.heap) && Shaped(s) && Owned(s) && NodesOwned(s) && PagesOwned(s) && EntriesOwned(s)
  }

  // ---------- what a grant and a release keep ----------

  /** Live extents other than `p` are the same. */
  ghost predicate SameExtents(s: Sys, t: Sys, p: int) {
    forall x :: x != p ==>
        (x in t.heap.Live() <==> x in s.heap.Live()) && (x in s.heap.Live() ==> t.heap.Live()[x] == s.heap.Live()[x])
  }

  lemma GrantsKeep(s: Sys, t: Sys, n: word, p: int, o: Owner)
    requires Inv(s.heap) && Owned(s) && Grants(s, t, n, p, o)
    ensures Inv(t.heap) && Owned(t) && SameExtents(s, t, p)
    ensures p == 0 ==> t.heap == s.heap && t.owner == s.owner
    ensures p != 0 ==> p !in s.owner && p in t.heap.Live() && t.heap.Live()[p] >= Align(n)
  {
    hide Inv, Alloc, UsedBlocks, Extents, Align, GrantLaw;
    InvLaid(s.heap);
    AllocKeepsInv(s.heap, n);
    AllocMeaning(s.heap, n);
  }

  lemma InvLaid(h: Heap)
    requires Inv(h)
    ensures Laid(h)
  {
  }

  lemma FreesKeep(s: Sys, t: Sys, p: int)
    requires Inv(s.heap) && Owned(s) && Frees(s, t, p)
    ensures Inv(t.heap) && Owned(t) && SameExtents(s, t, p) && p !in t.heap.Live() && p in s.owner
  {
    hide Inv, Free, UsedBlocks, Extents;
    InvLaid(s.heap);
    FreeKeepsInv(s.heap, p);
    FreeMeaning(s.heap, p);
  }

  lemma {:induction false} LoadKeeps(h: Heap, sizes: seq<word>, h': Heap, ps: seq<int>, owner: map<int, Owner>)
    requires Inv(h) && Loader.AllocSeq(h, sizes) == (h', ps) && 0 !in ps && owner.Keys == h.Live().Keys && 0 !in owner
    ensures Inv(h') && WithOwners(owner, ps, ElfSegment).Keys == h'.Live().Keys
        && 0 !in WithOwners(owner, ps, ElfSegment)
    ensures forall p :: p in owner ==>
        p !in ps && p in WithOwners(owner, ps, ElfSegment) && WithOwners(owner, ps, ElfSegment)[p] == owner[p]
    ensures forall p :: p in h.Live() ==> p in h'.Live() && h'.Live()[p] == h.Live()[p]
    ensures forall p :: p in WithOwners(owner, ps, ElfSegment) ==>
        p in owner || WithOwners(owner, ps, ElfSegment)[p] == ElfSegment
    decreases |sizes|
  {
    hide Inv, Alloc, UsedBlocks, Extents, GrantLaw;
    if |sizes| > 0 {
      var n := |sizes| - 1;
      var (h1, qs) := Loader.AllocSeq(h, sizes[..n]);
      var (h2, p) := Alloc(h1, sizes[n]);
      assert ps == qs + [p];
      assert 0 !in qs && p != 0 by { assert p in ps; }
      LoadKeeps(h, sizes[..n], h1, qs, owner);
      InvLaid(h1);
      AllocKeepsInv(h1, sizes[n]);
      AllocMeaning(h1, sizes[n]);
      assert ps[..|ps| - 1] == qs;
    }
  }

  // ---------- what each owner keeps ----------

  /** Ownership and extent of blocks outside `ps` are the same. */
  ghost predicate SameBeside(s: Sys, t: Sys, ps: set<int>) {
    forall x :: x !in ps ==>
      && (x in t.owner <==> x in s.owner)
      && (x in s.owner && x in t.owner ==> t.owner[x] == s.owner[x])
      && (x in t.heap.Live() <==> x in s.heap.Live())
      && (x in s.heap.Live() && x in t.heap.Live() ==> t.heap.Live()[x] == s.heap.Live()[x])
  }

  lemma NodesFrame(s: Sys, t: Sys, ps: set<int>)
    requires NodesOwned(s) && SameBeside(s, t, ps) && t.nodes == s.nodes && t.queues == s.queues
    requires forall p :: p in ps && p in s.owner ==> !s.owner[p].QueueNode?
    requires forall p :: p in ps && p in t.owner ==> !t.owner[p].QueueNode?
    ensures NodesOwned(t)
  {
    forall i, p | 0 <= i < QUEUES
      ensures p in t.nodes[i] <==> p in t.owner && t.owner[p] == QueueNode(i)
    {
      if p in ps { assert p in s.nodes[i] <==> p in s.owner && s.owner[p] == QueueNode(i); }
    }
  }

  lemma PagesFrame(s: Sys, t: Sys, ps: set<int>)
    requires PagesOwned(s) && SameBeside(s, t, ps) && t.slots == s.slots
    requires forall p :: p in ps && p in s.owner ==> !s.owner[p].SandboxPage?
    requires forall p :: p in ps && p in t.owner ==> !t.owner[p].SandboxPage?
    ensures PagesOwned(t)
  {
    forall i | 0 <= i < SLOTS && t.slots[i].used
      ensures var p := t.slots[i].memory;
        p in t.owner && t.owner[p] == SandboxPage(i) && p in t.heap.Live() && t.heap.Live()[p] >= SANDBOX_MEMORY_SIZE
    {
      assert s.slots[i].memory !in ps;
    }
  }

  lemma EntriesFrame(s: Sys, t: Sys, ps: set<int>)
    requires EntriesOwned(s) && SameBeside(s, t, ps) && t.entries == s.entries && t.bindings == s.bindings
    requires forall p :: p in ps && p in s.owner ==> !s.owner[p].RegistryEntry?
    requires forall p :: p in ps && p in t.owner ==> !t.owner[p].RegistryEntry?
    ensures EntriesOwned(t)
  {
    forall p
      ensures p in t.entries <==> p in t.owner && t.owner[p] == RegistryEntry
    {
      if p in ps { assert p in s.entries <==> p in s.owner && s.owner[p] == RegistryEntry; }
    }
  }

  lemma GrantBeside(s: Sys, t: Sys, n: word, p: int, o: Owner)
    requires Inv(s.heap) && Owned(s) && Grants(s, t, n, p, o)
    ensures SameBeside(s, t, {p})
    ensures p !in s.owner && (p in t.owner ==> t.owner[p] == o) && (p == 0 ==> p !in t.owner)
  {
    hide Inv, Alloc;
    GrantsKeep(s, t, n, p, o);
  }

  lemma FreeBeside(s: Sys, t: Sys, p: int)
    requires Inv(s.heap) && Owned(s) && Frees(s, t, p)
    ensures SameBeside(s, t, {p}) && p in s.owner && p !in t.owner
  {
    hide Inv, Free;
    FreesKeep(s, t, p);
  }

  lemma SendKeepsNodes(s: Sys, t: Sys, i: int, p: int, msg: Message)
    requires NodesOwned(s) && 0 <= i < QUEUES && p != 0 && p !in s.owner && t.owner == s.owner[p := QueueNode(i)]
    requires t.nodes == s.nodes[i := s.nodes[i] + [p]] && t.queues == s.queues[i := s.queues[i] + [msg]]
    ensures NodesOwned(t)
  {
    forall j, x | 0 <= j < QUEUES
      ensures x in t.nodes[j] <==> x in t.owner && t.owner[x] == QueueNode(j)
    {
      assert x in s.nodes[j] <==> x in s.owner && s.owner[x] == QueueNode(j);
      assert x in t.nodes[j] <==> x in s.nodes[j] || (j == i && x == p);
    }
    assert p !in s.nodes[i];
  }

  lemma TakeKeepsNodes(s: Sys, t: Sys, i: int)
    requires NodesOwned(s) && 0 <= i < QUEUES && s.nodes[i] != [] && t.owner == s.owner - {s.nodes[i][0]}
    requires t.nodes == s.nodes[i := s.nodes[i][1..]] && t.queues == s.queues[i := s.queues[i][1..]]
    ensures NodesOwned(t) && s.nodes[i][0] in s.owner && s.owner[s.nodes[i][0]] == QueueNode(i)
  {
    var p := s.nodes[i][0];
    assert p in s.nodes[i];
    forall j, x | 0 <= j < QUEUES
      ensures x in t.nodes[j] <==> x in t.owner && t.owner[x] == QueueNode(j)
    {
      assert x in s.nodes[j] <==> x in s.owner && s.owner[x] == QueueNode(j);
      if j == i {
        assert s.nodes[i] == [p] + t.nodes[i];
        assert p !in t.nodes[i];
      }
    }
    assert Distinct(t.nodes[i]) by {
      assert forall k :: 0 <= k < |t.nodes[i]| ==> t.nodes[i][k] == s.nodes[i][k + 1];
    }
  }

  lemma CreateKeepsPages(s: Sys, t: Sys, i: int, p: int)
    requires PagesOwned(s) && 0 <= i < SLOTS && !s.slots[i].used && SameBeside(s, t, {p}) && p !in s.owner
    requires p == 0 ==> p !in t.owner
    requires p != 0 ==> p in t.owner && t.owner[p] == SandboxPage(i)
    requires p != 0 ==> p in t.heap.Live() && t.heap.Live()[p] >= SANDBOX_MEMORY_SIZE
    requires t.slots == s.slots[i := if p == 0 then Slot(false, i, 0, 0) else Slot(true, i, 0, p)]
    ensures PagesOwned(t)
  {
    forall j | 0 <= j < SLOTS && t.slots[j].used
      ensures var x := t.slots[j].memory;
        x in t.owner && t.owner[x] == SandboxPage(j) && x in t.heap.Live() && t.heap.Live()[x] >= SANDBOX_MEMORY_SIZE
    {
      if j != i { assert s.slots[j].memory != p; }
    }
  }

  lemma DestroyKeepsPages(s: Sys, t: Sys, i: int)
    requires PagesOwned(s) && 0 <= i < SLOTS && s.slots[i].used && SameBeside(s, t, {s.slots[i].memory})
    requires t.owner == s.owner - {s.slots[i].memory} && t.slots == s.slots[i := s.slots[i].(used := false)]
    ensures PagesOwned(t)
  {
    forall j | 0 <= j < SLOTS && t.slots[j].used
      ensures var x := t.slots[j].memory;
        x in t.owner && t.owner[x] == SandboxPage(j) && x in t.heap.Live() && t.heap.Live()[x] >= SANDBOX_MEMORY_SIZE
    {
      assert s.slots[j].memory != s.slots[i].memory;
    }
  }

  lemma CapsKeepPages(s: Sys, t: Sys, i: int, caps: bv32)
    requires PagesOwned(s) && 0 <= i < SLOTS && s.slots[i].used
    requires t.owner == s.owner && t.heap == s.heap && t.slots == s.slots[i := s.slots[i].(capabilities := caps)]
    ensures PagesOwned(t)
  {
  }

  lemma RegisterKeepsEntries(s: Sys, t: Sys, p: int, b: Registry.Binding)
    requires EntriesOwned(s) && p != 0 && t.owner == s.owner[p := RegistryEntry] && p !in s.owner
    requires t.entries == [p] + s.entries && t.bindings == [b] + s.bindings
    ensures EntriesOwned(t)
  {
  }
}
