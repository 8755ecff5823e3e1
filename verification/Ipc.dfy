/** kernel/src/ipc/ipc.c: message queues per process. `Queue(i)` reads the messages of queue
    `i` out of memory by walking its nodes; the methods are specified by what they do to these
    sequences, to the heap, and to everybody else's memory. */
module Ipc {
  import opened Bytes
  import opened Blocks
  import opened HeapModel
  import opened HeapRuns
  import opened HeapImage
  import opened List
  import opened IpcImage
  import opened IpcSteps
  import opened MemoryManager

  class Ipc {
    const mm: Mm
    const base: word           // address of message_queues[0]
    ghost var nodes: seq<seq<int>>

    ghost predicate Valid()
      reads this, mm, mm.ram
    {
      && mm.Valid()
      && HeadsOutside(mm.heapStart, mm.heapEnd, base)
      && QueuesOk(mm.ram[..], base, mm.Live(), nodes)
    }

    /** The messages waiting for process `i`, oldest first. */
    ghost function Queue(i: int): seq<Message>
      requires 0 <= i < |nodes|
      reads this, mm, mm.ram
    {
      Messages(mm.ram[..], nodes[i])
    }

    /** The live blocks of other owners. */
    ghost function Others(): map<int, int>
      reads this, mm
    {
      IpcImage.Others(mm.Live(), nodes)
    }

    /** `ipc_init`: 32 empty queues. */
    constructor (mm: Mm, base: word)
      requires mm.Valid() && 0 < base <= ADDRESS_SPACE - HEADS_SIZE
      requires HeadsOutside(mm.heapStart, mm.heapEnd, base)
      modifies mm.ram
      ensures Valid() && this.mm == mm && this.base == base
      ensures nodes == seq(QUEUES, _ => [])
      ensures forall i :: 0 <= i < QUEUES ==> Queue(i) == []
      ensures Spared(old(mm.ram[..]), mm.ram[..], mm.heapStart, mm.heapEnd, base, mm.Live())
    {
      this.mm, this.base := mm, base;
      nodes := seq(QUEUES, _ => []);
      new;
      var i := 0;
      while i < QUEUES
        invariant 0 <= i <= QUEUES
        invariant Full(mm.ram[..]) && nodes == seq(QUEUES, _ => [])
        invariant forall j :: 0 <= j < i ==> Ring(mm.ram[..], [Head(base, j)])
        invariant forall a :: 0 <= a < ADDRESS_SPACE && !(base <= a < base + HEADS_SIZE) ==>
            mm.ram[..][a] == old(mm.ram[..])[a]
      {
        ghost var m := mm.ram[..];
        InitListHead(mm.ram, base + NODE_SIZE * i);
        HeadInitialized(m, mm.ram[..], base, i);
        i := i + 1;
      }
      StaticWrite(old(mm.ram[..]), mm.ram[..], mm.blocks, mm.heapStart, mm.heapEnd, base);
      forall j | 0 <= j < QUEUES
        ensures QueueOk(mm.ram[..], base, mm.Live(), nodes[j], j) && Queue(j) == []
      {
        assert [Head(base, j)] + nodes[j] == [Head(base, j)];
      }
    }

    /** `ipc_send` by process `pid`. */
    method Send(pid: word, to: word, data: word, size: word, kind: word) returns (ok: bool)
      requires Valid()
      requires to < 32 ==>
                 && 24 + size <= 0xFFFF_FFF8 && data + size <= ADDRESS_SPACE
                 && forall a :: data <= a < data + size ==> Protected(mm.heapStart, mm.heapEnd, mm.Live(), a)
      modifies this, mm, mm.ram
      ensures Valid()
      ensures to >= QUEUES ==> !ok && mm.Model() == old(mm.Model()) && mm.ram[..] == old(mm.ram[..])
      ensures mm.heapStart == old(mm.heapStart) && mm.heapEnd == old(mm.heapEnd)
      ensures to < QUEUES ==> var (h, p) := Alloc(old(mm.Model()), DATA + size);
                mm.Model() == h && ok == (p != 0) && (ok ==> nodes == old(nodes)[to := old(nodes)[to] + [p]])
      ensures ok <==> to < 32 && HasRoom(old(mm.blocks), (24 + size + 7) / 8 * 8)
      ensures ok ==> to < QUEUES && NewNode(nodes, to, old(mm.Live()), mm.Live(), (24 + size + 7) / 8 * 8)
      ensures !ok ==> nodes == old(nodes) && forall i :: 0 <= i < QUEUES ==> Queue(i) == old(Queue(i))
      ensures ok ==> Queue(to) == old(Queue(to)) + [Message(pid, to, kind, old(mm.ram[data..data + size]))]
      ensures ok ==> forall i :: 0 <= i < QUEUES && i != to ==> Queue(i) == old(Queue(i))
      ensures Spared(old(mm.ram[..]), mm.ram[..], mm.heapStart, mm.heapEnd, base, old(Others()))
    {
      hide QueueOk, NodeOk, Inv, Headers, Tiles, Messages, Spared, Alloc, UsedBlocks, Extents, MessageAt, IsNode,
           HasRoom;
      SparedSame(mm.ram[..], mm.heapStart, mm.heapEnd, base, Others());
      if to >= QUEUES { return false; }
      ghost var m0, live0 := mm.ram[..], mm.Live();
      ghost var lo, hi, others := mm.heapStart, mm.heapEnd, Others();
      OthersLive(live0, nodes);
      mm.Layout();
      RoomFor(mm.Model(), DATA + size);
      var p := Grab(size);
      if p == 0 { return false; }
      ghost var m1 := mm.ram[..];
      mm.Layout();
      DataApart(lo, hi, live0, mm.Live(), p, data, size);
      SameData(m0, m1, lo, hi, live0, data, size);
      Fill(p, pid, to, kind, data, size);
      ghost var m2 := mm.ram[..];
      Filled(m1, m2, lo, hi, base, mm.Live(), others, nodes, p);
      PayloadWrite(m1, m2, mm.blocks, lo, hi, p);
      SparedChain(m0, m1, m2, lo, hi, base, others);
      FilledNode(m2, mm.Live(), p, to);
      ghost var q := nodes;
      Link(p, to);
      OthersAfter(live0, mm.Live(), q, to, p);
      SparedChain(m0, m2, mm.ram[..], lo, hi, base, others);
      return true;
    }

    /** The allocation of a node: the queues stay as they are. */
    method Grab(size: word) returns (p: word)
      requires Valid() && DATA + size <= 0xFFFF_FFF8
      modifies mm, mm.ram
      ensures Valid() && (mm.Model(), p as int) == Alloc(old(mm.Model()), DATA + size)
      ensures mm.heapStart == old(mm.heapStart) && mm.heapEnd == old(mm.heapEnd)
      ensures p == 0 ==> mm.Model() == old(mm.Model())
      ensures p != 0 ==> && p as int !in old(mm.Live()) && p as int in mm.Live() && !IsNode(nodes, p)
                         && mm.Live() == old(mm.Live())[p as int := mm.Live()[p as int]]
                         && DATA + size <= mm.Live()[p as int]
      ensures forall i :: 0 <= i < QUEUES ==> Queue(i) == old(Queue(i))
      ensures Untouched(old(mm.ram[..]), mm.ram[..], mm.heapStart, mm.heapEnd, old(mm.Live()))
      ensures Spared(old(mm.ram[..]), mm.ram[..], mm.heapStart, mm.heapEnd, base, old(Others()))
    {
      hide QueueOk, NodeOk, Inv, Headers, Tiles, Messages, Untouched, Spared, Alloc, UsedBlocks, Extents, IsNode,
           GrantLaw, HasRoom;
      ghost var m, live, others := mm.ram[..], mm.Live(), Others();
      NodesAreLive(m, base, live, nodes);
      OthersLive(live, nodes);
      p := mm.Kmalloc(DATA + size);
      QueuesKept(m, mm.ram[..], mm.heapStart, mm.heapEnd, base, live, mm.Live(), live, nodes);
      SparedByHeap(m, mm.ram[..], mm.heapStart, mm.heapEnd, base, others, live);
    }

    /** The fields of a new node: header fields first, then the caller's bytes. */
    method Fill(p: word, pid: word, to: word, kind: word, data: word, size: word)
      requires Full(mm.ram[..]) && 0 < p && p + DATA + size < ADDRESS_SPACE && data + size <= ADDRESS_SPACE
      requires size == 0 || data + size <= p || p + DATA + size <= data
      modifies mm.ram
      ensures Full(mm.ram[..])
      ensures forall a :: 0 <= a < ADDRESS_SPACE && !(p <= a < p + DATA + size) ==> mm.ram[..][a] == old(mm.ram[..])[a]
      ensures MessageAt(mm.ram[..], p) == Message(pid, to, kind, old(mm.ram[data..data + size]))
      ensures Word(mm.ram[..], p + LENGTH) == size && Word(mm.ram[..], p + TO_PID) == to
    {
      hide PutWord, PutBytes, Word, MessageAt;
      StoreWord(mm.ram, p + FROM_PID, pid);
      StoreWord(mm.ram, p + TO_PID, to);
      StoreWord(mm.ram, p + KIND, kind);
      StoreWord(mm.ram, p + LENGTH, size);
      forall a | data <= a < data + size
        ensures mm.ram[..][a] == old(mm.ram[..])[a]
      {
      }
      assert mm.ram[..][data..data + size] == old(mm.ram[..])[data..data + size];
      Memcpy(mm.ram, p + DATA, data, size);
      MessageFields(mm.ram[..], p, Message(pid, to, kind, old(mm.ram[..])[data..data + size]));
    }

    /** The list part of `ipc_send`: the filled node becomes the last of queue `to`. */
    method Link(p: word, to: word)
      requires Valid() && to < QUEUES && !IsNode(nodes, p) && NodeOk(mm.ram[..], mm.Live(), p, to)
      modifies mm.ram, this`nodes
      ensures Valid() && nodes == old(nodes)[to := old(nodes)[to] + [p as int]]
      ensures Queue(to) == old(Queue(to)) + [MessageAt(old(mm.ram[..]), p)]
      ensures forall i :: 0 <= i < QUEUES && i != to ==> Queue(i) == old(Queue(i))
      ensures Spared(old(mm.ram[..]), mm.ram[..], mm.heapStart, mm.heapEnd, base, Others())
    {
      hide QueueOk, NodeOk, Inv, Headers, Tiles, Messages, Spared, UsedBlocks, Extents, MessageAt, Ring, OnlyLinks,
           Apart;
      ghost var m, live, lo, hi := mm.ram[..], mm.Live(), mm.heapStart, mm.heapEnd;
      ghost var ring := [Head(base, to)] + nodes[to];
      mm.Layout();
      NodeLive(m, live, p, to);
      TailApart(m, lo, hi, base, live, nodes, to, p);
      TailPlaces(m, base, live, nodes, to, p);
      InitListHead(mm.ram, p);
      RingBeside(m, mm.ram[..], ring, p);
      ghost var m3 := mm.ram[..];
      ListAddTail(mm.ram, p, base + NODE_SIZE * to, ring);
      LinksChain(m, m3, mm.ram[..], ring, p);
      Enqueued(m, mm.ram[..], lo, hi, base, live, nodes, to, p);
      LinksInPayloads(m, mm.ram[..], mm.blocks, lo, hi, base, ring + [p as int], to);
      HeadNotLive(lo, hi, base, live, to);
      nodes := nodes[to := nodes[to] + [p as int]];
      assert ring + [p as int] == [Head(base, to)] + nodes[to];
      TailNodes(nodes, base, to, ring + [p as int]);
      OthersOffList(base, live, nodes, to, ring + [p as int]);
      SparedByLinks(m, mm.ram[..], lo, hi, base, live, Others(), ring + [p as int], to);
    }

    /** Memory the caller may receive into: none of its bytes belongs to the queues, and none
        is free heap. */
    ghost predicate Receivable(fromPid: word, buffer: word, size: word, kind: word)
      reads this, mm
    {
      && fromPid + 4 < ADDRESS_SPACE && kind + 4 < ADDRESS_SPACE && (buffer != 0 ==> buffer + size < ADDRESS_SPACE)
      && OutsElsewhere(mm.heapStart, mm.heapEnd, base, Others(), fromPid, buffer, size, kind)
    }

    /** `ipc_receive` by process `pid`. The three pointers may be NULL. Of the buffer only the
        first `r` bytes are written. */
    method Receive(pid: word, fromPid: word, buffer: word, size: word, kind: word) returns (r: word)
      requires Valid()
      requires Receivable(fromPid, buffer, size, kind)
      modifies this, mm, mm.ram
      ensures Valid()
      ensures pid >= QUEUES || old(Queue(pid)) == [] ==>
                r == 0 && mm.Model() == old(mm.Model()) && nodes == old(nodes) && mm.ram[..] == old(mm.ram[..])
      ensures pid < QUEUES && old(Queue(pid)) != [] ==>
                && var msg, p := old(Queue(pid))[0], old(nodes)[pid][0];
                && p in old(mm.Live()) && mm.Model() == Free(old(mm.Model()), p)
                && nodes == old(nodes)[pid := old(nodes)[pid][1..]]
                && Queue(pid) == old(Queue(pid))[1..]
                && r as int == (if size < |msg.data| then size as int else |msg.data|)
                && Delivered(mm.ram[..], fromPid, buffer, r, kind, msg)
      ensures forall i :: 0 <= i < QUEUES && i != pid ==> Queue(i) == old(Queue(i))
      ensures mm.heapStart == old(mm.heapStart) && mm.heapEnd == old(mm.heapEnd)
      ensures SparedBut(old(mm.ram[..]), mm.ram[..], mm.heapStart, mm.heapEnd, base, old(Others()), fromPid, buffer, r,
          kind)
    {
      hide QueueOk, NodeOk, Inv, Headers, Tiles, Messages, Spared, UsedBlocks, Extents, MessageAt, IsNode, Free, Ring,
           Elsewhere, OutByte, SparedBut, Delivered;
      SparedButSame(mm.ram[..], mm.heapStart, mm.heapEnd, base, Others(), fromPid, buffer, 0, kind);
      if pid >= QUEUES { return 0; }
      var empty := Empty(pid);
      if empty { return 0; }
      ghost var m0, lo, hi, others := mm.ram[..], mm.heapStart, mm.heapEnd, Others();
      ghost var h, q := mm.Model(), nodes;
      ghost var msg := Queue(pid)[0];
      FirstMessage(m0, q[pid]);
      OthersLive(mm.Live(), q);
      var node := First(pid);
      Unlink(pid, node);
      ghost var m1, live := mm.ram[..], mm.Live();
      forall i | 0 <= i < QUEUES && i != pid
        ensures Messages(m1, nodes[i]) == Messages(m0, q[i])
      {
        assert Queue(i) == old(Queue(i));
      }
      mm.Layout();
      NodeReads(m1, live, node, pid);
      OnList(q, pid, node);
      FewerNodes(q, pid);
      OutsApart(lo, hi, base, live, others, node, fromPid, buffer, size, kind);
      OutsBeside(live, node, node + DATA + Word(m1, node + LENGTH), fromPid, buffer, size, kind);
      r := Deliver(node, fromPid, buffer, size, kind);
      ghost var m2 := mm.ram[..];
      OutsFewer(lo, hi, base, others, fromPid, buffer, size, r, kind);
      OutWrite(m1, m2, mm.blocks, lo, hi, base, others, nodes, fromPid, buffer, r, kind);
      OutNode(m1, m2, live, node, pid, fromPid, buffer, r, kind);
      Release(node, others);
      OutsKept(m2, mm.ram[..], lo, hi, base, others, fromPid, buffer, r, kind);
      DeliveredKept(m2, mm.ram[..], fromPid, buffer, r, kind, msg);
      SparedButChain(m0, m1, m2, mm.ram[..], lo, hi, base, others, fromPid, buffer, r, kind);
      forall i | 0 <= i < QUEUES && i != pid
        ensures Queue(i) == old(Queue(i))
      {
        assert nodes[i] == q[i];
        assert Messages(m2, nodes[i]) == Messages(m1, nodes[i]) == Messages(m0, q[i]);
      }
    }

    /** `ipc_process_messages` by process `pid`: its walk over the queue takes the first message
        off and ends there, before the step that would follow the links `list_del` has
        cleared. */
    method ProcessMessages(pid: word)
      requires Valid()
      modifies this, mm, mm.ram
      ensures Valid()
      ensures pid >= QUEUES || old(Queue(pid)) == [] ==>
                mm.Model() == old(mm.Model()) && nodes == old(nodes) && mm.ram[..] == old(mm.ram[..])
      ensures pid < QUEUES && old(Queue(pid)) != [] ==>
                && var p := old(nodes)[pid][0];
                && p in old(mm.Live()) && mm.Model() == Free(old(mm.Model()), p)
                && nodes == old(nodes)[pid := old(nodes)[pid][1..]]
                && Queue(pid) == old(Queue(pid))[1..]
      ensures forall i :: 0 <= i < QUEUES && i != pid ==> Queue(i) == old(Queue(i))
      ensures mm.heapStart == old(mm.heapStart) && mm.heapEnd == old(mm.heapEnd)
      ensures Spared(old(mm.ram[..]), mm.ram[..], mm.heapStart, mm.heapEnd, base, old(Others()))
    {
      hide QueueOk, Inv, Headers, Messages, Spared, UsedBlocks, Extents, Free, IpcImage.Others;
      SparedSame(mm.ram[..], mm.heapStart, mm.heapEnd, base, Others());
      if pid >= QUEUES { return; }
      var empty := Empty(pid);
      if empty { return; }
      var pos := First(pid);
      var head: word := base + NODE_SIZE * pid;
      var left := false;         // by `break`
      while !left && pos != head
        invariant Valid() && mm.heapStart == old(mm.heapStart) && mm.heapEnd == old(mm.heapEnd)
        invariant !left ==> mm.ram[..] == old(mm.ram[..]) && nodes == old(nodes) && mm.Model() == old(mm.Model())
        invariant left ==> var p := old(nodes)[pid][0];
                    && p in old(mm.Live()) && mm.Model() == Free(old(mm.Model()), p)
                    && nodes == old(nodes)[pid := old(nodes)[pid][1..]]
                    && Queue(pid) == old(Queue(pid))[1..]
        invariant forall i :: 0 <= i < QUEUES && i != pid ==> Queue(i) == old(Queue(i))
        invariant Spared(old(mm.ram[..]), mm.ram[..], mm.heapStart, mm.heapEnd, base, old(Others()))
        decreases !left
      {
        TakeFirst(pid, pos);
        left := true;
      }
    }

    /** The part of the walk that deals with a message: `list_del` and `kfree`. */
    method TakeFirst(pid: word, node: word)
      requires Valid() && pid < QUEUES && nodes[pid] != [] && node as int == nodes[pid][0]
      modifies this, mm, mm.ram
      ensures Valid()
      ensures node as int in old(mm.Live()) && mm.Model() == Free(old(mm.Model()), node)
      ensures nodes == old(nodes)[pid := old(nodes)[pid][1..]]
      ensures old(Queue(pid)) != [] && Queue(pid) == old(Queue(pid))[1..]
      ensures forall i :: 0 <= i < QUEUES && i != pid ==> Queue(i) == old(Queue(i))
      ensures mm.heapStart == old(mm.heapStart) && mm.heapEnd == old(mm.heapEnd)
      ensures Spared(old(mm.ram[..]), mm.ram[..], mm.heapStart, mm.heapEnd, base, old(Others()))
    {
      hide QueueOk, NodeOk, Inv, Headers, Tiles, Messages, Spared, UsedBlocks, Extents, MessageAt, IsNode, Free, Ring,
           Elsewhere;
      ghost var m0, lo, hi, others := mm.ram[..], mm.heapStart, mm.heapEnd, Others();
      ghost var q := nodes;
      FirstMessage(m0, q[pid]);
      OthersLive(mm.Live(), q);
      Unlink(pid, node);
      ghost var m1 := mm.ram[..];
      forall i | 0 <= i < QUEUES && i != pid
        ensures Messages(m1, nodes[i]) == Messages(m0, q[i])
      {
        assert Queue(i) == old(Queue(i));
      }
      NodeReads(m1, mm.Live(), node, pid);
      OnList(q, pid, node);
      Release(node, others);
      SparedChain(m0, m1, mm.ram[..], lo, hi, base, others);
      forall i | 0 <= i < QUEUES && i != pid
        ensures Queue(i) == old(Queue(i))
      {
        assert nodes[i] == q[i];
        assert Messages(m1, nodes[i]) == Messages(m0, q[i]);
      }
    }

    method Empty(pid: word) returns (empty: bool)
      requires Valid() && pid < QUEUES
      ensures empty <==> nodes[pid] == []
      ensures empty <==> Queue(pid) == []
    {
      assert QueueOk(mm.ram[..], base, mm.Live(), nodes[pid], pid);
      empty := ListEmpty(mm.ram, base + NODE_SIZE * pid, [Head(base, pid)] + nodes[pid]);
    }

    /** The first node of a queue; the head itself if there is none. */
    method First(pid: word) returns (node: word)
      requires Valid() && pid < QUEUES
      ensures node as int == if nodes[pid] == [] then Head(base, pid) else nodes[pid][0]
      ensures Head(base, pid) < ADDRESS_SPACE && (nodes[pid] != [] ==> node as int != Head(base, pid))
    {
      hide Inv, Headers, Tiles, UsedBlocks, Extents, Messages, Word;
      ghost var ring := [Head(base, pid)] + nodes[pid];
      QueueRing(mm.ram[..], base, mm.Live(), nodes, pid);
      assert NodeAt(mm.ram[..], ring, 0);
      node := LoadWord(mm.ram, base + NODE_SIZE * pid + NEXT_LINK);
      if nodes[pid] != [] { RingDistinct(mm.ram[..], ring, 0, 1); }
    }

    /** The first node of a queue is taken off its list; it stays a live block. */
    method Unlink(pid: word, node: word)
      requires Valid() && pid < QUEUES && nodes[pid] != [] && node as int == nodes[pid][0]
      modifies mm.ram, this`nodes
      ensures Valid() && nodes == old(nodes)[pid := old(nodes)[pid][1..]]
      ensures NodeOk(mm.ram[..], mm.Live(), node, pid) && !IsNode(nodes, node)
      ensures old(Queue(pid)) == [MessageAt(mm.ram[..], node)] + Queue(pid)
      ensures forall i :: 0 <= i < QUEUES && i != pid ==> Queue(i) == old(Queue(i))
      ensures Spared(old(mm.ram[..]), mm.ram[..], mm.heapStart, mm.heapEnd, base, old(Others()))
    {
      hide QueueOk, NodeOk, Inv, Headers, Tiles, Messages, Spared, UsedBlocks, Extents, MessageAt, OnlyLinks, Apart;
      ghost var m, live, lo, hi, others := mm.ram[..], mm.Live(), mm.heapStart, mm.heapEnd, Others();
      ghost var ring := [Head(base, pid)] + nodes[pid];
      mm.Layout();
      QueueRing(m, base, live, nodes, pid);
      ListDel(mm.ram, node, ring, 1);
      Dequeued(m, mm.ram[..], lo, hi, base, live, nodes, pid);
      LinksInPayloads(m, mm.ram[..], mm.blocks, lo, hi, base, ring, pid);
      TailNodes(nodes, base, pid, ring);
      HeadNotLive(lo, hi, base, live, pid);
      OthersOffList(base, live, nodes, pid, ring);
      SparedByLinks(m, mm.ram[..], lo, hi, base, live, others, ring, pid);
      nodes := nodes[pid := nodes[pid][1..]];
    }

    /** What `ipc_receive` stores for its caller, in the order of the source. */
    method Deliver(node: word, fromPid: word, buffer: word, size: word, kind: word) returns (copied: word)
      requires Full(mm.ram[..]) && Readable(mm.ram[..], node)
      requires fromPid + 4 < ADDRESS_SPACE && kind + 4 < ADDRESS_SPACE
          && (buffer != 0 ==> buffer + size < ADDRESS_SPACE)
      requires var end := node + DATA + Word(mm.ram[..], node + LENGTH);
               Beside(fromPid, 4, node, end) && Beside(kind, 4, node, end) && Beside(buffer, size, node, end)
      modifies mm.ram
      ensures Full(mm.ram[..])
      ensures forall a :: 0 <= a < ADDRESS_SPACE && !OutByte(fromPid, buffer, copied, kind, a) ==>
          mm.ram[..][a] == old(mm.ram[..])[a]
      ensures var msg := MessageAt(old(mm.ram[..]), node);
              copied as int == (if size < |msg.data| then size as int else |msg.data|)
              && Delivered(mm.ram[..], fromPid, buffer, copied, kind, msg)
    {
      hide PutWord, PutBytes, Word, Delivered, OutByte, StoreIf;
      ghost var m := mm.ram[..];
      ghost var msg := MessageAt(m, node);
      StoreSender(node, fromPid, kind);
      ghost var m2 := mm.ram[..];
      StoresBeside(m, node, fromPid, kind);
      var length := LoadWord(mm.ram, node + LENGTH);
      copied := if size < length then size else length;
      PrefixOf(m2, node + DATA, length, copied, msg.data);
      if copied > 0 && buffer != 0 {
        Memcpy(mm.ram, buffer, node + DATA, copied);
      }
      DeliverMeaning(m, msg, fromPid, buffer, copied, kind);
    }

    method StoreSender(node: word, fromPid: word, kind: word)
      requires Full(mm.ram[..]) && Readable(mm.ram[..], node)
      requires fromPid + 4 < ADDRESS_SPACE && kind + 4 < ADDRESS_SPACE
      requires var end := node + DATA + Word(mm.ram[..], node + LENGTH);
               Beside(fromPid, 4, node, end) && Beside(kind, 4, node, end)
      modifies mm.ram
      ensures var msg := MessageAt(old(mm.ram[..]), node);
              mm.ram[..] == StoreIf(StoreIf(old(mm.ram[..]), fromPid, msg.from), kind, msg.kind)
    {
      hide PutWord, Word;
      if fromPid != 0 {
        var from := LoadWord(mm.ram, node + FROM_PID);
        StoreWord(mm.ram, fromPid, from);
      }
      if kind != 0 {
        var t := LoadWord(mm.ram, node + KIND);
        StoreWord(mm.ram, kind, t);
      }
    }

    /** `kfree` of a node that is on no list any more. */
    method Release(node: word, ghost others: map<int, int>)
      requires Valid() && node as int in mm.Live() && !IsNode(nodes, node)
      requires forall p :: p in others ==> p in mm.Live() && p != node && others[p] == mm.Live()[p]
      modifies mm, mm.ram
      ensures Valid() && mm.Model() == Free(old(mm.Model()), node) && mm.Live() == old(mm.Live()) - {node as int}
      ensures mm.heapStart == old(mm.heapStart) && mm.heapEnd == old(mm.heapEnd)
      ensures forall i :: 0 <= i < QUEUES ==> Queue(i) == old(Queue(i))
      ensures Spared(old(mm.ram[..]), mm.ram[..], mm.heapStart, mm.heapEnd, base, others)
    {
      hide QueueOk, NodeOk, Inv, Headers, Tiles, Messages, Spared, UsedBlocks, Extents, IsNode, Free, Untouched;
      ghost var m, live := mm.ram[..], mm.Live();
      NodesAreLive(m, base, live, nodes);
      mm.Layout();
      FreeMeaning(mm.Model(), node);
      mm.Kfree(node);
      QueuesKept(m, mm.ram[..], mm.heapStart, mm.heapEnd, base, live, mm.Live(), mm.Live(), nodes);
      SparedByHeap(m, mm.ram[..], mm.heapStart, mm.heapEnd, base, others, mm.Live());
    }
  }
}
