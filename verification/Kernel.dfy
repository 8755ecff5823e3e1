/** The heap and all its users put together over one memory. Every call is proved to be a step
    of the system state machine, so the theorems about runs of that machine hold for the code. */
module Kernel {
  import opened Bytes
  import opened Blocks
  import opened HeapModel
  import opened HeapRuns
  import opened HeapImage
  import opened MemoryManager
  import opened IpcImage
  import opened IpcSteps
  import opened Ipc
  import opened SandboxTable
  import opened Sandbox
  import opened System
  import opened SystemRuns
  import opened KernelFrames
  import Registry
  import Loader

  class Kernel {
    const mm: Mm
    const ipc: Ipc
    const sandboxes: Sandboxes
    const registry: Registry.Interfaces
    ghost var owner: map<int, Owner>
    ghost var log: seq<Event>  // the calls since boot that may have changed something

    /** The abstract state: everything but `owner` is read off memory and the C globals. */
    ghost function Abs(): Sys
      reads this`owner, mm, mm.ram, ipc, sandboxes, sandboxes.table, registry
    {
      Snapshot(mm.Model(), owner, mm.ram[..], ipc.nodes, sandboxes.table[..], registry.entries)
    }

    ghost predicate Valid()
      reads this, mm, mm.ram, ipc, sandboxes, sandboxes.table, registry
    {
      && ipc.mm == mm && sandboxes.mm == mm && registry.mm == mm
      && ipc.Valid() && sandboxes.Valid() && registry.Valid()
      && SysInv(Abs()) && Reached(log, Abs())
    }

    /** The call just made is event `e`, from state `s` and history `past`. */
    ghost predicate Did(s: Sys, past: seq<Event>, e: Event)
      reads this`owner, this`log, mm, mm.ram, ipc, sandboxes, sandboxes.table, registry
    {
      Step(s, e, Abs()) && log == past + [e]
    }

    /** The heap is where it was, and static memory is as it was in `m`, but for the list heads. */
    ghost predicate StaticKept(m: Memory, lo: int, hi: int)
      reads mm, mm.ram
    {
      mm.heapStart == lo && mm.heapEnd == hi && SameStatic(m, mm.ram[..], lo, hi, ipc.base)
    }

    /** `mm_init`, `ipc_init` and `sandbox_init` on a memory whose list heads at `base` lie
        below the end of the kernel image. The source's `kernel_main` calls no `sandbox_init`;
        it leaves the table as zero as it was loaded, in which no slot is used either. */
    constructor (ram: array<byte>, heapLimit: word, flags: word, memLower: word, memUpper: word, kernelEnd: word,
                 base: word)
      requires Full(ram[..]) && heapLimit > HEADER && heapLimit % ALIGNMENT == 0
      requires 0 < base && base + HEADS_SIZE <= kernelEnd && Available(flags, memLower, memUpper) < ADDRESS_SPACE
      requires PageUp(kernelEnd) + HEADER < Available(flags, memLower, memUpper)
      modifies ram
      ensures Valid() && mm.ram == ram && ipc.base == base
      ensures fresh(mm) && fresh(ipc) && fresh(sandboxes) && fresh(sandboxes.table) && fresh(registry)
      ensures mm.heapStart == PageUp(kernelEnd)
      ensures mm.heapStart % 4096 == 0 && kernelEnd <= mm.heapStart < kernelEnd + 4096
      ensures mm.totalMemory == if flags % 2 == 1 then (memLower + memUpper) * 1024 else 67108864
      ensures mm.heapEnd - mm.heapStart ==
              if heapLimit <= mm.totalMemory - mm.heapStart then heapLimit else mm.totalMemory - mm.heapStart
      ensures SameStatic(old(ram[..]), ram[..], mm.heapStart, mm.heapEnd, base)
      ensures Abs().heap == Initial(mm.heapStart, mm.heapEnd) && owner == map[] && log == []
      ensures forall i :: 0 <= i < QUEUES ==> Abs().queues[i] == []
      ensures Fresh(Abs().slots) && Abs().bindings == []
    {
      hide Inv, SysInv, Reached, Headers, HasRoom, GrantLaw, UsedBlocks, Extents, Untouched, QueuesOk, Snapshot,
           Registry.Chain, PageUp, Available, HeapBytes, Tiles, Pairs, Initial, Booted, Fresh, SameStatic, Spared,
           AllMessages, LowestFree, UsedSlots;
      var m := new Mm(ram, heapLimit);
      m.InitHeap(flags, memLower, memUpper, kernelEnd);
      ghost var n := ram[..];
      StaticUntouched(old(ram[..]), n, m.heapStart, m.heapEnd, base, map[]);
      var i := new Ipc(m, base);
      StaticSpared(n, ram[..], m.heapStart, m.heapEnd, base, m.Live());
      StaticChain(old(ram[..]), n, ram[..], m.heapStart, m.heapEnd, base);
      var b := new Sandboxes(m);
      var r := new Registry.Interfaces(m);
      mm, ipc, sandboxes, registry := m, i, b, r;
      owner, log := map[], [];
      new;
      BootInv(mm.Model(), mm.ram[..], ipc.nodes, sandboxes.table[..]);
      Fields(mm.Model(), owner, mm.ram[..], ipc.nodes, sandboxes.table[..], registry.entries);
      ReachedAtBoot(Abs());
    }

    lemma Clients()
      requires Valid()
      ensures ClientsOk(mm.ram[..], mm.heapStart, mm.heapEnd, ipc.base, mm.Live(), ipc.nodes, sandboxes.table[..],
          registry.entries)
    {
    }

    // ---------- the heap ----------

    /** `kmalloc` by a caller outside the subsystems. */
    method Kmalloc(n: word) returns (p: word)
      requires Valid()
      modifies this, mm, mm.ram
      ensures Valid() && Did(old(Abs()), old(log), Malloc(n, p))
      ensures p == 0 <==> n == 0 || !HasRoom(old(mm.blocks), Align(n))
      ensures p != 0 ==> p as int in mm.Live() && GrantLaw(old(mm.blocks), Align(n), p, mm.Live()[p as int], mm.blocks)
      ensures StaticKept(old(mm.ram[..]), old(mm.heapStart), old(mm.heapEnd))
    {
      hide Inv, SysInv, Reached, Headers, HasRoom, GrantLaw, Alloc, UsedBlocks, Extents, Untouched, QueuesOk,
           Registry.Chain, PagesOk, Snapshot, SameClients, SameContents, Grants;
      ghost var s, m, h, o := Abs(), mm.ram[..], mm.Model(), owner;
      Clients();
      p := mm.Kmalloc(n);
      StaticUntouched(m, mm.ram[..], mm.heapStart, mm.heapEnd, ipc.base, h.Live());
      GrantFrame(h, o, m, ipc.nodes, sandboxes.table[..], registry.entries, ipc.base, n, mm.Model(), p, mm.ram[..],
          Caller);
      owner := WithOwner(owner, p, Caller);
      ReachedNext(log, s, Malloc(n, p), Abs());
      log := log + [Malloc(n, p)];
    }

    /** `kfree` by a caller outside the subsystems, of a pointer of its own, of NULL, or of
        anything that `is_valid_pointer` rejects. */
    method Kfree(p: word)
      requires Valid()
      requires if p as int in owner then owner[p as int] == Caller else !mm.ValidPointer(p)
      modifies this, mm, mm.ram
      ensures Valid() && Did(old(Abs()), old(log), Release(p))
      ensures StaticKept(old(mm.ram[..]), old(mm.heapStart), old(mm.heapEnd))
    {
      hide Inv, SysInv, Reached, Headers, HasRoom, GrantLaw, Free, UsedBlocks, Extents, Untouched, QueuesOk,
           Registry.Chain, PagesOk, Snapshot, SameContents, Frees, ClientBlock;
      ghost var s, m, h, o := Abs(), mm.ram[..], mm.Model(), owner;
      ghost var q, t, es := ipc.nodes, sandboxes.table[..], registry.entries;
      Clients();
      mm.Layout();
      Keys(h, o, m, q, t, es);
      Fields(h, o, m, q, t, es);
      mm.Kfree(p);
      StaticUntouched(m, mm.ram[..], mm.heapStart, mm.heapEnd, ipc.base, mm.Live());
      if p as int in owner {
        NotClient(h, o, m, q, t, es, p);
        FreeFrame(h, o, m, q, t, t, es, ipc.base, p, mm.Model(), mm.ram[..]);
        owner := owner - {p as int};
      } else {
        IdleFrame(h, o, m, q, t, es, ipc.base, mm.ram[..]);
      }
      Fields(mm.Model(), owner, mm.ram[..], q, t, es);
      ReachedNext(log, s, Release(p), Abs());
      log := log + [Release(p)];
    }

    /** The owner of a private block fills a byte of it. */
    method Write(p: word, k: word, b: byte)
      requires Valid() && p as int in owner && Private(owner[p as int]) && p as int in mm.Live()
          && k < mm.Live()[p as int]
      modifies this`log, mm.ram
      ensures Valid() && Did(old(Abs()), old(log), Store(p))
      ensures mm.ram[..] == PutByte(old(mm.ram[..]), p + k, b)
    {
      hide Inv, SysInv, Reached, Headers, HasRoom, GrantLaw, UsedBlocks, Extents, QueuesOk, Registry.Chain, PagesOk,
           Snapshot, SameContents, PutByte;
      ghost var s, m, h, q, t, es := Abs(), mm.ram[..], mm.Model(), ipc.nodes, sandboxes.table[..], registry.entries;
      Clients();
      mm.Layout();
      StoreByte(mm.ram, p + k, b);
      StoreFrame(h, owner, m, q, t, es, ipc.base, p, mm.ram[..]);
      Fields(h, owner, m, q, t, es);
      Fields(h, owner, mm.ram[..], q, t, es);
      ReachedNext(log, s, Store(p), Abs());
      log := log + [Store(p)];
    }

    /** A caller fills a byte of static memory that is none of the list heads. */
    method WriteStatic(a: word, b: byte)
      requires Valid() && 0 < a && (a < mm.heapStart || mm.heapEnd <= a)
      requires !(ipc.base <= a < ipc.base + HEADS_SIZE)
      modifies mm.ram
      ensures Valid() && Abs() == old(Abs())
      ensures mm.ram[..] == PutByte(old(mm.ram[..]), a, b)
    {
      hide Inv, SysInv, Reached, Headers, HasRoom, GrantLaw, UsedBlocks, Extents, QueuesOk, Registry.Chain, PagesOk,
           Snapshot, PutByte;
      ghost var m, h, q, t, es := mm.ram[..], mm.Model(), ipc.nodes, sandboxes.table[..], registry.entries;
      Clients();
      mm.Layout();
      Keys(h, owner, m, q, t, es);
      StoreByte(mm.ram, a, b);
      StaticFrame(h, owner, m, q, t, es, ipc.base, a, mm.ram[..]);
    }

    // ---------- messages ----------

    /** `ipc_send` by process `pid`. */
    method IpcSend(pid: word, to: word, data: word, size: word, kind: word) returns (ok: bool)
      requires Valid()
      requires to < 32 ==>
                 && 24 + size <= 0xFFFF_FFF8 && data + size <= ADDRESS_SPACE
                 && forall a :: data <= a < data + size ==> Protected(mm.heapStart, mm.heapEnd, mm.Live(), a)
      modifies this, ipc, mm, mm.ram
      ensures Valid()
      ensures to >= 32 ==> Abs() == old(Abs()) && log == old(log)
      ensures to < 32 ==>
                var p := Alloc(old(mm.Model()), DATA + size).1;
                ok == (p != 0) && Did(old(Abs()), old(log), Send(pid, to, kind, old(mm.ram[data..data + size]), p))
      ensures StaticKept(old(mm.ram[..]), old(mm.heapStart), old(mm.heapEnd))
      ensures ok <==> to < 32 && HasRoom(old(mm.blocks), (24 + size + 7) / 8 * 8)
      ensures ok ==> NewNode(ipc.nodes, to, old(mm.Live()), mm.Live(), (24 + size + 7) / 8 * 8)
    {
      hide Inv, SysInv, Reached, Headers, HasRoom, GrantLaw, Alloc, UsedBlocks, Extents, QueuesOk, Registry.Chain,
           PagesOk, Snapshot, SameContents, Spared, Messages, Step;
      ghost var s, m, h, o, q, t, es := Abs(), mm.ram[..], mm.Model(), owner, ipc.nodes, sandboxes.table[..],
          registry.entries;
      Clients();
      Keys(h, o, m, q, t, es);
      ok := ipc.Send(pid, to, data, size, kind);
      StaticSpared(m, mm.ram[..], mm.heapStart, mm.heapEnd, ipc.base, IpcImage.Others(h.Live(), q));
      if to < QUEUES {
        ghost var bytes, p := m[data..data + size], Alloc(h, DATA + size).1;
        ghost var n, r := mm.ram[..], ipc.nodes;
        NodeCount(m, ipc.base, h.Live(), q);
        forall j | 0 <= j < QUEUES
          ensures Messages(n, r[j]) == Messages(m, q[j])
              + (if ok && j == to then [Message(pid, to, kind, bytes)] else [])
        {
          assert ipc.Queue(j) == old(ipc.Queue(j)) + (if ok && j == to then [Message(pid, to, kind, bytes)] else []);
        }
        owner := WithOwner(owner, p, QueueNode(to));
        SendFrame(h, o, m, q, t, es, ipc.base, mm.Model(), p, n, r, pid, to, kind, bytes);
        ReachedNext(log, s, Send(pid, to, kind, bytes, p), Abs());
        log := log + [Send(pid, to, kind, bytes, p)];
      }
    }

    /** Where the caller may ask `ipc_receive` to store: static data other than the list heads,
        or private blocks. */
    ghost predicate MayReceive(fromPid: word, buffer: word, size: word, kind: word)
      reads this, mm, ipc
    {
      && fromPid + 4 < ADDRESS_SPACE && kind + 4 < ADDRESS_SPACE && (buffer != 0 ==> buffer + size < ADDRESS_SPACE)
      && forall a {:trigger OutByte(fromPid, buffer, size, kind, a)} ::
           OutByte(fromPid, buffer, size, kind, a) ==>
               CallerByte(mm.heapStart, mm.heapEnd, ipc.base, owner, mm.Live(), a)
    }

    /** `ipc_receive` by process `pid`: the event, and with it what lies in the caller's
        memory afterwards: sender, type and bytes of one earlier `ipc_send` to this process,
        event number `sent` of the history, the one before which as many sends to it had
        succeeded as messages have been taken so far. */
    method IpcReceive(pid: word, fromPid: word, buffer: word, size: word, kind: word)
      returns (r: word, ghost took: seq<Message>, ghost sent: nat)
      requires Valid() && MayReceive(fromPid, buffer, size, kind)
      modifies this, ipc, mm, mm.ram
      ensures Valid()
      ensures var out := Touched(old(owner), old(mm.Live()), fromPid, buffer, r, kind);
              var touched := if took == [] then {} else out;
              Did(old(Abs()), old(log), Receive(pid, size, took, touched))
      ensures took == [] ==> r == 0 && mm.ram[..] == old(mm.ram[..])
      ensures took != [] ==> var msg := took[0];
                r as int == (if size < |msg.data| then size as int else |msg.data|)
                && Delivered(mm.ram[..], fromPid, buffer, r, kind, msg)
                && (buffer != 0 ==> mm.ram[buffer..buffer + r] == msg.data[..r])
                && (kind != 0 && (buffer == 0 || kind + 4 <= buffer || buffer + r <= kind) ==>
                      Word(mm.ram[..], kind) == msg.kind)
                && ((fromPid != 0 && (buffer == 0 || fromPid + 4 <= buffer || buffer + r <= fromPid)
                     && (kind == 0 || fromPid + 4 <= kind || kind + 4 <= fromPid)) ==>
                      Word(mm.ram[..], fromPid) == msg.from)
      ensures took != [] ==>
                && sent < |old(log)| && old(log)[sent].Send?
                && var e := old(log)[sent];
                && e.to == pid && e.p != 0 && took == [Message(e.from, e.to, e.kind, e.data)]
                && |Sent(old(log)[..sent], pid)| == |Taken(old(log), pid)|
      ensures mm.heapStart == old(mm.heapStart) && mm.heapEnd == old(mm.heapEnd)
      ensures SparedBut(old(mm.ram[..]), mm.ram[..], mm.heapStart, mm.heapEnd, ipc.base,
                        old(IpcImage.Others(mm.Live(), ipc.nodes)), fromPid, buffer, r, kind)
    {
      hide Inv, SysInv, Reached, Headers, HasRoom, GrantLaw, Free, UsedBlocks, Extents, QueuesOk, Registry.Chain,
           PagesOk, Snapshot, SameContents, SparedBut, Messages, Step, Takes, OutsElsewhere, MessageAt,
           IpcImage.Others, Registry.Bindings, OutByte, CallerByte, Touched, Delivered, Sent, Taken, Private,
           NodesOwned, Laid;
      ghost var s, m, h, o, q, t, es := Abs(), mm.ram[..], mm.Model(), owner, ipc.nodes, sandboxes.table[..],
          registry.entries;
      Clients();
      Keys(h, o, m, q, t, es);
      Fields(h, o, m, q, t, es);
      NodeCount(m, ipc.base, h.Live(), q);
      OutBlocks(s, ipc.base, fromPid, buffer, size, kind);
      took, sent := [], 0;
      r := ipc.Receive(pid, fromPid, buffer, size, kind);
      ghost var n, q' := mm.ram[..], ipc.nodes;
      OutsFewer(mm.heapStart, mm.heapEnd, ipc.base, IpcImage.Others(h.Live(), q), fromPid, buffer, size, r, kind);
      if pid >= QUEUES || Messages(m, q[pid]) == [] {
        NoMail(s, pid, size);
      } else {
        MailNodes(m, q[pid]);
        took := [Messages(m, q[pid])[0]];
        forall j | 0 <= j < QUEUES
          ensures Messages(n, q'[j]) == if j == pid then Messages(m, q[j])[1..] else Messages(m, q[j])
        {
          assert ipc.Queue(j) == if j == pid then old(ipc.Queue(j))[1..] else old(ipc.Queue(j));
        }
        owner := owner - {q[pid][0]};
        TakeFrame(h, o, m, q, t, es, ipc.base, mm.Model(), n, q', pid, fromPid, buffer, r, kind);
        TakenStep(s, Abs(), pid, size, took, Touched(o, h.Live(), fromPid, buffer, r, kind));
        sent := FrontWasSent(log, s, pid);
        DeliveredPlain(n, fromPid, buffer, r, kind, took[0]);
      }
      ghost var touched := if took == [] then {} else Touched(o, h.Live(), fromPid, buffer, r, kind);
      ReachedNext(log, s, Receive(pid, size, took, touched), Abs());
      log := log + [Receive(pid, size, took, touched)];
    }

    /** `ipc_process_messages` by process `pid`. */
    method IpcProcess(pid: word) returns (ghost took: seq<Message>)
      requires Valid()
      modifies this, ipc, mm, mm.ram
      ensures Valid() && Did(old(Abs()), old(log), Process(pid, took))
      ensures StaticKept(old(mm.ram[..]), old(mm.heapStart), old(mm.heapEnd))
    {
      hide Inv, SysInv, Reached, Headers, HasRoom, GrantLaw, Free, UsedBlocks, Extents, QueuesOk, Registry.Chain,
           PagesOk, Snapshot, SameContents, Spared, SparedBut, Messages, Step, Takes, OutsElsewhere, MessageAt,
           IpcImage.Others, Registry.Bindings, OutByte, CallerByte, Touched;
      ghost var s, m, h, o, q, t, es := Abs(), mm.ram[..], mm.Model(), owner, ipc.nodes, sandboxes.table[..],
          registry.entries;
      Clients();
      Keys(h, o, m, q, t, es);
      Fields(h, o, m, q, t, es);
      NodeCount(m, ipc.base, h.Live(), q);
      took := [];
      ipc.ProcessMessages(pid);
      StaticSpared(m, mm.ram[..], mm.heapStart, mm.heapEnd, ipc.base, IpcImage.Others(h.Live(), q));
      ghost var n, q' := mm.ram[..], ipc.nodes;
      if pid >= QUEUES || Messages(m, q[pid]) == [] {
        NoMail(s, pid, 0);
      } else {
        MailNodes(m, q[pid]);
        took := [Messages(m, q[pid])[0]];
        forall j | 0 <= j < QUEUES
          ensures Messages(n, q'[j]) == if j == pid then Messages(m, q[j])[1..] else Messages(m, q[j])
        {
          assert ipc.Queue(j) == if j == pid then old(ipc.Queue(j))[1..] else old(ipc.Queue(j));
        }
        owner := owner - {q[pid][0]};
        SparedPlain(m, n, mm.heapStart, mm.heapEnd, ipc.base, IpcImage.Others(h.Live(), q));
        NoTouched(o, h.Live());
        TakeFrame(h, o, m, q, t, es, ipc.base, mm.Model(), n, q', pid, 0, 0, 0, 0);
        TakenStep(s, Abs(), pid, 0, took, {});
      }
      ReachedNext(log, s, Process(pid, took), Abs());
      log := log + [Process(pid, took)];
    }

    // ---------- sandboxes ----------

    method SandboxCreate() returns (id: int)
      requires Valid()
      modifies this, sandboxes, sandboxes.table, mm, mm.ram
      ensures Valid()
      ensures var i := LowestFree(old(sandboxes.table[..]), 0);
              var p := if i == SLOTS then 0 else Alloc(old(mm.Model()), SANDBOX_MEMORY_SIZE).1;
              && id == (if p == 0 then -1 else i)
              && Did(old(Abs()), old(log), Event.SandboxCreate(if i == SLOTS then -1 else i, p))
      ensures StaticKept(old(mm.ram[..]), old(mm.heapStart), old(mm.heapEnd))
      ensures sandboxes.table.Length == 32
      ensures id != -1 <==>
              (exists i :: 0 <= i < 32 && !old(sandboxes.table[..])[i].used) && HasRoom(old(mm.blocks), 4096)
      ensures id != -1 ==> 0 <= id < 32 && forall j :: 0 <= j < id ==> old(sandboxes.table[..])[j].used
      ensures forall i :: 0 <= i < 32 && sandboxes.table[i].used ==>
              && sandboxes.table[i].memory in mm.Live() && mm.Live()[sandboxes.table[i].memory] >= 4096
    {
      hide Inv, SysInv, Reached, Headers, HasRoom, GrantLaw, Alloc, UsedBlocks, Extents, Untouched, QueuesOk,
           Registry.Chain, PagesOk, Snapshot, SameContents, SameClients, Grants, Step, UsedSlots, LowestFree, After;
      ghost var s, m, h, o, q, t, es := Abs(), mm.ram[..], mm.Model(), owner, ipc.nodes, sandboxes.table[..],
          registry.entries;
      Clients();
      Keys(h, o, m, q, t, es);
      Fields(h, o, m, q, t, es);
      FullTable(t);
      ghost var i := LowestFree(t, 0);
      id := sandboxes.Create();
      StaticUntouched(m, mm.ram[..], mm.heapStart, mm.heapEnd, ipc.base, h.Live());
      ghost var p := if i == SLOTS then 0 else Alloc(h, SANDBOX_MEMORY_SIZE).1;
      if i == SLOTS {
        IdleFrame(h, o, m, q, t, es, ipc.base, mm.ram[..]);
        TableFull(s);
      } else {
        owner := WithOwner(owner, p, SandboxPage(i));
        GrantFrame(h, o, m, q, t, es, ipc.base, SANDBOX_MEMORY_SIZE, mm.Model(), p, mm.ram[..], SandboxPage(i));
        CreateFrame(h, o, m, q, t, es, mm.Model(), owner, mm.ram[..], sandboxes.table[..], i, p);
      }
      ReachedNext(log, s, Event.SandboxCreate(if i == SLOTS then -1 else i, p), Abs());
      log := log + [Event.SandboxCreate(if i == SLOTS then -1 else i, p)];
    }

    method SandboxDestroy(id: int) returns (r: int)
      requires Valid()
      modifies this, sandboxes, sandboxes.table, mm, mm.ram
      ensures Valid() && (r == 0 || r == 1) && Did(old(Abs()), old(log), Event.SandboxDestroy(id, r == 1))
      ensures StaticKept(old(mm.ram[..]), old(mm.heapStart), old(mm.heapEnd))
    {
      hide Inv, SysInv, Reached, Headers, HasRoom, GrantLaw, Free, UsedBlocks, Extents, Untouched, QueuesOk,
           Registry.Chain, PagesOk, Snapshot, SameContents, SameClients, Frees, Step, UsedSlots, After, ClientBlock;
      ghost var s, m, h, o, q, t, es := Abs(), mm.ram[..], mm.Model(), owner, ipc.nodes, sandboxes.table[..],
          registry.entries;
      Clients();
      Keys(h, o, m, q, t, es);
      Fields(h, o, m, q, t, es);
      r := sandboxes.Destroy(id);
      StaticUntouched(m, mm.ram[..], mm.heapStart, mm.heapEnd, ipc.base, mm.Live());
      if r == 0 {
        IdleFrame(h, o, m, q, t, es, ipc.base, mm.ram[..]);
        NoSandbox(s, id);
      } else {
        ghost var p, t' := t[id].memory, sandboxes.table[..];
        Abandoned(h, o, m, q, t, es, ipc.base, id, t');
        FreeFrame(h, o, m, q, t, t', es, ipc.base, p, mm.Model(), mm.ram[..]);
        owner := owner - {p};
        DestroyFrame(h, o, m, q, t, es, mm.Model(), owner, mm.ram[..], t', id);
      }
      ReachedNext(log, s, Event.SandboxDestroy(id, r == 1), Abs());
      log := log + [Event.SandboxDestroy(id, r == 1)];
    }

    method SandboxGrant(id: int, caps: bv32) returns (r: int)
      requires Valid()
      modifies this`log, sandboxes.table
      ensures Valid() && (r == 0 || r == 1) && Did(old(Abs()), old(log), Event.SandboxGrant(id, caps, r == 1))
    {
      hide Inv, SysInv, Reached, Headers, HasRoom, GrantLaw, QueuesOk, Registry.Chain, PagesOk, Step, UsedSlots,
           After;
      ghost var s := Abs();
      r := sandboxes.Grant(id, caps);
      CapsEvents(s, Abs(), id, caps);
      ReachedNext(log, s, Event.SandboxGrant(id, caps, r == 1), Abs());
      log := log + [Event.SandboxGrant(id, caps, r == 1)];
    }

    method SandboxRevoke(id: int, caps: bv32) returns (r: int)
      requires Valid()
      modifies this`log, sandboxes.table
      ensures Valid() && (r == 0 || r == 1) && Did(old(Abs()), old(log), Event.SandboxRevoke(id, caps, r == 1))
    {
      hide Inv, SysInv, Reached, Headers, HasRoom, GrantLaw, QueuesOk, Registry.Chain, PagesOk, Step, UsedSlots,
           After;
      ghost var s := Abs();
      r := sandboxes.Revoke(id, caps);
      CapsEvents(s, Abs(), id, caps);
      ReachedNext(log, s, Event.SandboxRevoke(id, caps, r == 1), Abs());
      log := log + [Event.SandboxRevoke(id, caps, r == 1)];
    }

    method SandboxAlloc(id: int, n: word) returns (p: word)
      requires Valid()
      modifies this, mm, mm.ram
      ensures Valid() && Did(old(Abs()), old(log), Event.SandboxAlloc(id, n, p))
      ensures StaticKept(old(mm.ram[..]), old(mm.heapStart), old(mm.heapEnd))
      ensures p != 0 <==> Holds(old(log), id, 0x08) && n > 0 && HasRoom(old(mm.blocks), Align(n))
    {
      hide Inv, SysInv, Reached, Headers, HasRoom, GrantLaw, Alloc, UsedBlocks, Extents, Untouched, QueuesOk,
           Registry.Chain, PagesOk, Snapshot, SameClients, SameContents, Grants, Permits, Holds;
      ghost var s, m, h, o, q, t, es := Abs(), mm.ram[..], mm.Model(), owner, ipc.nodes, sandboxes.table[..],
          registry.entries;
      Clients();
      Keys(h, o, m, q, t, es);
      Fields(h, o, m, q, t, es);
      p := sandboxes.AllocFor(id, n);
      StaticUntouched(m, mm.ram[..], mm.heapStart, mm.heapEnd, ipc.base, h.Live());
      if Permits(t, id, CAP_ACCESS_MEMORY) {
        GrantFrame(h, o, m, q, t, es, ipc.base, n, mm.Model(), p, mm.ram[..], Caller);
        owner := WithOwner(owner, p, Caller);
      } else {
        IdleFrame(h, o, m, q, t, es, ipc.base, mm.ram[..]);
      }
      HistoryOfRights(old(log), s, id, CAP_ACCESS_MEMORY);
      ReachedNext(log, s, Event.SandboxAlloc(id, n, p), Abs());
      log := log + [Event.SandboxAlloc(id, n, p)];
    }

    /** `sandbox_check_permission`, for any mask. */
    method SandboxCheckPermission(id: int, required: bv32) returns (ok: bool)
      requires Valid()
      ensures ok <==> Holds(log, id, required)
    {
      hide Inv, SysInv, Reached, Headers, HasRoom, GrantLaw, Permits, Holds;
      ok := sandboxes.CheckPermission(id, required);
      HistoryOfRights(log, Abs(), id, required);
    }

    method SandboxSyscall(id: int, number: int) returns (r: int)
      requires Valid()
      ensures Step(Abs(), Event.SandboxSyscall(id, number, r), Abs())
      ensures r == 0 || r == -1
      ensures r == 0 <==> number == 1 && Holds(log, id, 0x10) && Holds(log, id, 0x20)
    {
      hide Inv, SysInv, Reached, Headers, HasRoom, GrantLaw, Permits, Holds;
      r := sandboxes.Syscall(id, number);
      HistoryOfRights(log, Abs(), id, CAP_SYSCALL);
      HistoryOfRights(log, Abs(), id, CAP_IPC);
    }

    // ---------- the registry ----------

    method InterfaceRegister(name: word, iface: word, ghost s: seq<byte>)
      requires Valid()
      requires name != 0 && iface != 0 ==>
                 Registry.StrAt(mm.ram[..], name, s) &&
                 forall a :: name <= a <= name + |s| ==> Protected(mm.heapStart, mm.heapEnd, mm.Live(), a)
      modifies this, registry, mm, mm.ram
      ensures Valid()
      ensures if name == 0 || iface == 0 then Abs() == old(Abs()) && log == old(log)
              else Did(old(Abs()), old(log), Register(s, iface, Alloc(old(mm.Model()), Registry.ENTRY_SIZE).1))
      ensures StaticKept(old(mm.ram[..]), old(mm.heapStart), old(mm.heapEnd))
      ensures name != 0 && iface != 0 ==>
          (|registry.entries| > |old(registry.entries)| <==> HasRoom(old(mm.blocks), 40))
      ensures |registry.entries| > |old(registry.entries)| ==>
                var p := registry.entries[0]; p !in old(mm.Live()) && p in mm.Live() && 40 <= mm.Live()[p] <= 64
    {
      hide Inv, SysInv, Reached, Headers, HasRoom, GrantLaw, Alloc, UsedBlocks, Extents, Untouched, Protected,
           QueuesOk, Registry.Chain, Registry.Bindings, Registry.StrAt, PagesOk, Snapshot, SameClients, SameContents,
           Grants, Step;
      ghost var z, m, h, o, q, t, es := Abs(), mm.ram[..], mm.Model(), owner, ipc.nodes, sandboxes.table[..],
          registry.entries;
      Clients();
      Keys(h, o, m, q, t, es);
      registry.Register(name, iface, s);
      StaticUntouched(m, mm.ram[..], mm.heapStart, mm.heapEnd, ipc.base, h.Live());
      if name == 0 || iface == 0 {
        IdleFrame(h, o, m, q, t, es, ipc.base, mm.ram[..]);
      } else {
        ghost var p := Alloc(h, Registry.ENTRY_SIZE).1;
        owner := WithOwner(owner, p, RegistryEntry);
        RegisterFrame(h, o, m, q, t, es, ipc.base, mm.Model(), mm.ram[..], registry.entries, s, iface, p);
        ReachedNext(log, z, Register(s, iface, p), Abs());
        log := log + [Register(s, iface, p)];
      }
    }

    method InterfaceGet(name: word, ghost s: seq<byte>) returns (iface: word)
      requires Valid() && (name != 0 ==> Registry.StrAt(mm.ram[..], name, s))
      ensures if name == 0 then iface == 0 else Step(Abs(), Get(s, iface), Abs())
      ensures name != 0 ==> var m := Registry.MapOf(Registered(log)); iface == if s in m then m[s] else 0
      ensures |s| >= 32 ==> iface == 0
    {
      hide Inv, SysInv, Reached, Headers, HasRoom, GrantLaw, Registry.StrAt, Registered;
      iface := registry.Get(name, s);
      HistoryOfNames(log, Abs(), s);
    }

    /** `interface_exists`. */
    method InterfaceExists(name: word, ghost s: seq<byte>) returns (found: bool)
      requires Valid() && (name != 0 ==> Registry.StrAt(mm.ram[..], name, s))
      ensures found <==> name != 0 && s in Registry.MapOf(Registered(log))
    {
      hide Inv, SysInv, Reached, Headers, HasRoom, GrantLaw, Registry.StrAt, Registered;
      found := registry.Exists(name, s);
      HistoryOfNames(log, Abs(), s);
      assert Abs().bindings == registry.Contents();
    }

    // ---------- the loader ----------

    /** `load_elf_module`: one event for all segments that got their blocks, and their bytes. */
    method LoadModule(base: word, ghost len: int)
      returns (entry: word, ghost ok: bool, ghost ps: seq<int>, ghost at: seq<int>)
      requires Valid() && Loader.ImageOk(mm.ram[..], base, len)
      requires forall a :: base <= a < base + len ==> Protected(mm.heapStart, mm.heapEnd, mm.Live(), a)
      modifies this, mm, mm.ram
      ensures Valid()
      ensures Loader.LoadLaw(old(mm.ram[..]), base, old(mm.Model()), mm.ram[..], mm.Model(), entry, ok, at)
      ensures
        var h, m, ss := old(mm.Model()), old(mm.ram[..]), Loader.ImageSegments(old(mm.ram[..]), base, len);
        && |ps| <= |ss|
        && Did(old(Abs()), old(log), Load(Loader.Sizes(ss[..|ps|]), ps, Loader.SizeOf(ss, |ps|)))
        && Loader.AllPlaced(mm.ram[..], mm.Live(), old(mm.Live()), m[base..base + len], ss[..|ps|], ps)
        && (ok <==> Loader.Loads(h, m, base, len))
        && ((exists s :: s in ss && s.memsz == 0) ==> !ok)
        && ps == Loader.BeforeNull(Loader.AllocSeq(h, Loader.Sizes(ss)).1)
        && (ok ==> |ps| == |ss| && entry == Word(m, base + Loader.E_ENTRY))
        && (!ok ==> entry == 0 && (mm.Model() == h <==> ps == []))
      ensures StaticKept(old(mm.ram[..]), old(mm.heapStart), old(mm.heapEnd))
    {
      hide Inv, SysInv, Reached, Headers, HasRoom, GrantLaw, Alloc, UsedBlocks, Extents, Untouched, Protected,
           QueuesOk, Registry.Chain, PagesOk, Snapshot, SameClients, SameContents, Step, Word, Loader.AllPlaced,
           Loader.AllocSeq, Loader.ImageSegments, Loader.HeaderOk, Loader.Loads, Loader.LoadLaw;
      ghost var s, m, h, o, q, t, es := Abs(), mm.ram[..], mm.Model(), owner, ipc.nodes, sandboxes.table[..],
          registry.entries;
      Clients();
      Keys(h, o, m, q, t, es);
      entry, ok, ps, at := Loader.LoadElf(mm, base, len);
      StaticUntouched(m, mm.ram[..], mm.heapStart, mm.heapEnd, ipc.base, h.Live());
      ghost var ss := Loader.ImageSegments(m, base, len);
      ghost var denied := Loader.SizeOf(ss, |ps|);
      owner := WithOwners(owner, ps, ElfSegment);
      LoadFrame(h, o, m, q, t, es, ipc.base, Loader.Sizes(ss[..|ps|]), mm.Model(), ps, denied, mm.ram[..],
          m[base..base + len], ss[..|ps|]);
      ReachedNext(log, s, Load(Loader.Sizes(ss[..|ps|]), ps, denied), Abs());
      log := log + [Load(Loader.Sizes(ss[..|ps|]), ps, denied)];
    }
  }
}
