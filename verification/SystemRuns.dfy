/** Theorems about every run of the whole system. */
module SystemRuns {
  import opened Bytes
  import opened Blocks
  import opened HeapModel
  import opened HeapTheorems
  import opened IpcImage
  import opened SandboxTable
  import opened System
  import Registry
  import Loader

  // ---------- one step ----------

  lemma LoadBeside(s: Sys, t: Sys, sizes: seq<word>, ps: seq<int>)
    requires Inv(s.heap) && Owned(s) && Loader.AllocSeq(s.heap, sizes) == (t.heap, ps) && 0 !in ps
    requires t.owner == WithOwners(s.owner, ps, ElfSegment)
    ensures Inv(t.heap) && Owned(t) && SameBeside(s, t, t.owner.Keys - s.owner.Keys)
    ensures forall p :: p in t.owner && p !in s.owner ==> t.owner[p] == ElfSegment
    ensures forall p :: p in s.owner ==> p in t.owner && t.owner[p] == s.owner[p]
  {
    hide Inv, UsedBlocks, Extents;
    LoadKeeps(s.heap, sizes, t.heap, ps, s.owner);
  }

  lemma PlainGrant(s: Sys, t: Sys, n: word, p: int)
    requires SysInv(s) && Grants(s, t, n, p, Caller) && Shaped(t) && SameClients(s, t)
    ensures SysInv(t)
  {
    hide Inv, NodesOwned, PagesOwned, EntriesOwned, Grants, Shaped;
    GrantsKeep(s, t, n, p, Caller);
    GrantBeside(s, t, n, p, Caller);
    NodesFrame(s, t, {p});
    PagesFrame(s, t, {p});
    EntriesFrame(s, t, {p});
  }

  lemma PlainFree(s: Sys, t: Sys, p: int)
    requires SysInv(s) && Frees(s, t, p) && Shaped(t) && SameClients(s, t) && p in s.owner && s.owner[p] == Caller
    ensures SysInv(t)
  {
    hide Inv, NodesOwned, PagesOwned, EntriesOwned, Frees, Shaped;
    FreesKeep(s, t, p);
    FreeBeside(s, t, p);
    NodesFrame(s, t, {p});
    PagesFrame(s, t, {p});
    EntriesFrame(s, t, {p});
  }

  lemma SendStep(s: Sys, t: Sys, e: Event)
    requires SysInv(s) && e.Send? && Step(s, e, t)
    ensures SysInv(t)
  {
    hide Inv, NodesOwned, PagesOwned, EntriesOwned, Grants, Shaped;
    if e.to < QUEUES {
      var n, o := DATA + |e.data|, QueueNode(e.to);
      GrantsKeep(s, t, n, e.p, o);
      GrantBeside(s, t, n, e.p, o);
      GrantOwner(s, t, n, e.p, o);
      if e.p == 0 {
        NodesFrame(s, t, {});
      } else {
        SendKeepsNodes(s, t, e.to, e.p, Message(e.from, e.to, e.kind, e.data));
      }
      PagesFrame(s, t, {e.p});
      EntriesFrame(s, t, {e.p});
    }
  }

  lemma GrantOwner(s: Sys, t: Sys, n: word, p: int, o: Owner)
    requires Grants(s, t, n, p, o)
    ensures t.owner == WithOwner(s.owner, p, o)
  {
  }

  lemma TakeStep(s: Sys, t: Sys, pid: int, took: seq<Message>, touched: set<int>)
    requires SysInv(s) && HasMail(s, pid) && Takes(s, t, pid, took, touched)
    ensures SysInv(t)
  {
    hide Inv, PagesOwned, EntriesOwned, Free, Shaped;
    var p := s.nodes[pid][0];
    TakeKeepsNodes(s, t, pid);
    FreesKeep(s, t, p);
    FreeBeside(s, t, p);
    PagesFrame(s, t, {p});
    EntriesFrame(s, t, {p});
  }

  lemma CreateStep(s: Sys, t: Sys, e: Event)
    requires SysInv(s) && e.SandboxCreate? && e.slot != -1 && Step(s, e, t)
    ensures SysInv(t)
  {
    hide Inv, NodesOwned, PagesOwned, EntriesOwned, Grants, Shaped, LowestFree;
    var o := SandboxPage(e.slot);
    GrantsKeep(s, t, SANDBOX_MEMORY_SIZE, e.p, o);
    GrantBeside(s, t, SANDBOX_MEMORY_SIZE, e.p, o);
    GrantOwner(s, t, SANDBOX_MEMORY_SIZE, e.p, o);
    NodesFrame(s, t, {e.p});
    PagesSlots(s);
    CreateKeepsPages(s, t, e.slot, e.p);
    EntriesFrame(s, t, {e.p});
  }

  lemma PagesSlots(s: Sys)
    requires PagesOwned(s)
    ensures |s.slots| == SLOTS
    ensures forall i :: 0 <= i < SLOTS && s.slots[i].used ==>
        s.slots[i].memory in s.owner && s.owner[s.slots[i].memory] == SandboxPage(i)
  {
  }

  lemma DestroyStep(s: Sys, t: Sys, e: Event)
    requires SysInv(s) && e.SandboxDestroy? && e.ok && Step(s, e, t)
    ensures SysInv(t)
  {
    hide Inv, NodesOwned, PagesOwned, EntriesOwned, Free, Shaped;
    var p := s.slots[e.id].memory;
    PagesSlots(s);
    FreesKeep(s, t, p);
    FreeBeside(s, t, p);
    NodesFrame(s, t, {p});
    DestroyKeepsPages(s, t, e.id);
    EntriesFrame(s, t, {p});
  }

  lemma RegisterStep(s: Sys, t: Sys, e: Event)
    requires SysInv(s) && e.Register? && Step(s, e, t)
    ensures SysInv(t)
  {
    hide Inv, NodesOwned, PagesOwned, EntriesOwned, Grants, Shaped;
    GrantsKeep(s, t, Registry.ENTRY_SIZE, e.p, RegistryEntry);
    GrantBeside(s, t, Registry.ENTRY_SIZE, e.p, RegistryEntry);
    GrantOwner(s, t, Registry.ENTRY_SIZE, e.p, RegistryEntry);
    NodesFrame(s, t, {e.p});
    PagesFrame(s, t, {e.p});
    if e.p == 0 {
      EntriesFrame(s, t, {});
    } else {
      RegisterKeepsEntries(s, t, e.p, Registry.Binding(Registry.CutName(e.name), e.iface));
    }
  }

  lemma LoadStep(s: Sys, t: Sys, e: Event)
    requires SysInv(s) && e.Load? && Step(s, e, t)
    ensures SysInv(t)
  {
    hide Inv, NodesOwned, PagesOwned, EntriesOwned, Shaped, WithOwners, Loader.AllocSeq;
    LoadBeside(s, t, e.sizes, e.ps);
    var ps := t.owner.Keys - s.owner.Keys;
    NodesFrame(s, t, ps);
    PagesFrame(s, t, ps);
    EntriesFrame(s, t, ps);
  }

  lemma SameButSlots(s: Sys, t: Sys)
    requires SysInv(s) && t == s.(slots := t.slots)
    ensures Shaped(t) && Owned(t) && NodesOwned(t) && EntriesOwned(t)
  {
  }

  lemma CapsStep(s: Sys, t: Sys, e: Event)
    requires SysInv(s) && (e.SandboxGrant? || e.SandboxRevoke?) && Step(s, e, t)
    ensures SysInv(t)
  {
    hide Inv, With, Without, NodesOwned, PagesOwned, EntriesOwned, Shaped, Owned;
    if e.ok {
      PagesSlots(s);
      SameButSlots(s, t);
      CapsKeepPages(s, t, e.id, t.slots[e.id].capabilities);
    }
  }

  /** Every step keeps the system invariant: heap, ownership, queues, sandboxes, registry. */
  lemma StepKeepsInv(s: Sys, e: Event, t: Sys)
    requires SysInv(s) && Step(s, e, t)
    ensures SysInv(t)
  {
    match e
    case Malloc(n, p) => PlainGrant(s, t, n, p);
    case Release(p) => if p in s.owner { PlainFree(s, t, p); }
    case Store(p) => StoreStep(s, t, p);
    case Send(_, _, _, _, _) => SendStep(s, t, e);
    case Receive(pid, _, took, touched) => if HasMail(s, pid) { TakeStep(s, t, pid, took, touched); }
    case Process(pid, took) => if HasMail(s, pid) { TakeStep(s, t, pid, took, {}); }
    case SandboxCreate(slot, _) => if slot != -1 { CreateStep(s, t, e); }
    case SandboxDestroy(_, ok) => if ok { DestroyStep(s, t, e); }
    case SandboxGrant(_, _, _) => CapsStep(s, t, e);
    case SandboxRevoke(_, _, _) => CapsStep(s, t, e);
    case SandboxAlloc(id, n, p) => if Permits(s.slots, id, CAP_ACCESS_MEMORY) { PlainGrant(s, t, n, p); }
    case SandboxSyscall(_, _, _) =>
    case Register(_, _, _) => RegisterStep(s, t, e);
    case Get(_, _) =>
    case Load(_, _, _) => LoadStep(s, t, e);
  }

  lemma StoreStep(s: Sys, t: Sys, p: int)
    requires SysInv(s) && t.heap == s.heap && t.owner == s.owner && SameClients(s, t) && Shaped(t)
    ensures SysInv(t)
  {
    hide Inv, NodesOwned, PagesOwned, EntriesOwned, Shaped;
    NodesFrame(s, t, {});
    PagesFrame(s, t, {});
    EntriesFrame(s, t, {});
  }

  // ---------- runs ----------

  /** A run: the states before, between and after the events. */
  ghost predicate Run(ss: seq<Sys>, es: seq<Event>) {
    |ss| == |es| + 1 && forall k {:trigger es[k]} :: 0 <= k < |es| ==> Step(ss[k], es[k], ss[k + 1])
  }

  lemma RunFront(ss: seq<Sys>, es: seq<Event>, k: nat)
    requires Run(ss, es) && k <= |es|
    ensures Run(ss[..k + 1], es[..k])
  {
    hide Step;
    forall j | 0 <= j < k
      ensures Step(ss[..k + 1][j], es[..k][j], ss[..k + 1][j + 1])
    {
      assert es[..k][j] == es[j];
    }
  }

  /** The invariant holds in every state of every run. */
  lemma {:induction false} RunKeepsSysInv(ss: seq<Sys>, es: seq<Event>, k: nat)
    requires Run(ss, es) && SysInv(ss[0]) && k <= |es|
    ensures SysInv(ss[k])
    decreases k
  {
    hide Step, SysInv;
    if k > 0 {
      RunKeepsSysInv(ss, es, k - 1);
      assert Step(ss[k - 1], es[k - 1], ss[k]);
      StepKeepsInv(ss[k - 1], es[k - 1], ss[k]);
    }
  }

  // ---------- ownership ----------

  /** The step with which the owner of `p` gives it up. */
  ghost predicate ReleasedBy(s: Sys, e: Event, p: int)
    requires p in s.owner
  {
    match s.owner[p]
    case Caller => e == Release(p)
    case QueueNode(i) => (e.Receive? || e.Process?) && e.pid == i && 0 <= i < |s.nodes| && s.nodes[i] != []
        && p == s.nodes[i][0]
    case SandboxPage(i) => e.SandboxDestroy? && e.id == i && e.ok
    case RegistryEntry => false
    case ElfSegment => false
  }

  lemma GrantTakesNothing(s: Sys, t: Sys, n: word, q: int, o: Owner, p: int)
    requires Inv(s.heap) && Owned(s) && Grants(s, t, n, q, o) && p in s.owner
    ensures p in t.owner && t.owner[p] == s.owner[p]
  {
    hide Inv, Alloc;
    GrantBeside(s, t, n, q, o);
  }

  lemma TakeTakesHead(s: Sys, t: Sys, pid: int, took: seq<Message>, touched: set<int>, p: int)
    requires NodesOwned(s) && HasMail(s, pid) && Takes(s, t, pid, took, touched) && p in s.owner
    ensures p in t.owner ==> t.owner[p] == s.owner[p]
    ensures p !in t.owner ==> s.owner[p] == QueueNode(pid) && s.nodes[pid] != [] && p == s.nodes[pid][0]
  {
    hide Free, SameContents, NodesOwned;
    HeadOwned(s, pid);
  }

  /** A block never changes hands, and only its owner's own release step makes it free. */
  lemma OnlyOwnerReleases(s: Sys, e: Event, t: Sys, p: int)
    requires SysInv(s) && Step(s, e, t) && p in s.owner
    ensures p in t.owner ==> t.owner[p] == s.owner[p]
    ensures p !in t.owner ==> ReleasedBy(s, e, p)
  {
    hide Inv, Shaped, SameContents, SameClients, SameBeside, Grants, Takes, Free, With, Without, NodesOwned,
         PagesOwned, EntriesOwned, WithOwners, Loader.AllocSeq, UsedBlocks, Extents;
    match e
    case Load(sizes, ps, _) => LoadBeside(s, t, sizes, ps);
    case Malloc(n, q) => GrantTakesNothing(s, t, n, q, Caller, p);
    case SandboxAlloc(id, n, q) =>
      if Permits(s.slots, id, CAP_ACCESS_MEMORY) { GrantTakesNothing(s, t, n, q, Caller, p); }
    case Send(_, to, _, data, q) => if to < QUEUES { GrantTakesNothing(s, t, DATA + |data|, q, QueueNode(to), p); }
    case SandboxCreate(i, q) => if i != -1 { GrantTakesNothing(s, t, SANDBOX_MEMORY_SIZE, q, SandboxPage(i), p); }
    case Register(_, _, q) => GrantTakesNothing(s, t, Registry.ENTRY_SIZE, q, RegistryEntry, p);
    case Receive(pid, _, took, touched) => if HasMail(s, pid) { TakeTakesHead(s, t, pid, took, touched, p); }
    case Process(pid, took) => if HasMail(s, pid) { TakeTakesHead(s, t, pid, took, {}, p); }
    case SandboxDestroy(id, ok) => if ok { PagesSlots(s); }
    case _ =>
  }

  lemma HeadOwned(s: Sys, pid: int)
    requires NodesOwned(s) && HasMail(s, pid)
    ensures s.nodes[pid] != [] && s.nodes[pid][0] in s.owner && s.owner[s.nodes[pid][0]] == QueueNode(pid)
  {
    var p := s.nodes[pid][0];
    assert p in s.nodes[pid];
    assert p in s.nodes[pid] <==> p in s.owner && s.owner[p] == QueueNode(pid);
  }

  /** Payloads of different blocks never overlap. */
  lemma OwnersDisjoint(s: Sys, p: int, q: int, a: int)
    requires SysInv(s) && p in s.owner && q in s.owner && p != q
    requires p <= a < p + |s.contents[p]|
    ensures !(q <= a < q + |s.contents[q]|)
  {
    hide Tiles, UsedBlocks, Extents;
    if p < q {
      LiveDisjoint(s.heap.blocks, s.heap.lo, s.heap.hi, p, q);
    } else {
      LiveDisjoint(s.heap.blocks, s.heap.lo, s.heap.hi, q, p);
    }
  }

  /** The events that may write the payload of `p` while it stays live. */
  ghost predicate MayWrite(s: Sys, e: Event, p: int)
    requires p in s.owner
  {
    || e == Store(p)
    || (e.Receive? && p in e.touched)
    || (s.owner[p].QueueNode? && (e.Send? || e.Receive? || e.Process?))
  }

  lemma StepKeepsPayload(s: Sys, e: Event, t: Sys, p: int)
    requires SysInv(s) && Step(s, e, t) && p in s.owner && p in t.owner && !MayWrite(s, e, p)
    ensures p in s.contents && p in t.contents && t.contents[p] == s.contents[p]
  {
    hide Inv, Alloc, Free, NodesOwned, PagesOwned, EntriesOwned, With, Without, WithOwners, Shaped, SameContents;
    StepKeepsInv(s, e, t);
    assert s.owner[p].QueueNode? <==> p in AllNodes(s);
    OwnedHasContents(s, p);
    OwnedHasContents(t, p);
    match e
    case Store(q) => SameAt(s, t, {q}, p);
    case Send(_, to, _, _, _) => if to < QUEUES { SameAt(s, t, AllNodes(s), p); }
    case Receive(pid, _, _, touched) => if HasMail(s, pid) { SameAt(s, t, AllNodes(s) + touched, p); }
    case Process(pid, _) => if HasMail(s, pid) { SameAt(s, t, AllNodes(s) + {}, p); }
    case _ => if SameContents(s, t, {}) { SameAt(s, t, {}, p); }
  }

  lemma SameAt(s: Sys, t: Sys, changed: set<int>, p: int)
    requires SameContents(s, t, changed) && p in s.contents && p in t.contents && p !in changed
    ensures t.contents[p] == s.contents[p]
  {
  }

  /** Over any run in which nobody writes or releases it, a block keeps its owner and every
      byte of its payload. */
  lemma {:induction false} PayloadStable(ss: seq<Sys>, es: seq<Event>, p: int)
    requires Run(ss, es) && SysInv(ss[0]) && p in ss[0].owner
    requires forall k :: 0 <= k < |es| && p in ss[k].owner ==>
        !ReleasedBy(ss[k], es[k], p) && !MayWrite(ss[k], es[k], p)
    ensures p in ss[|es|].owner && ss[|es|].owner[p] == ss[0].owner[p]
    ensures p in ss[0].contents && p in ss[|es|].contents && ss[|es|].contents[p] == ss[0].contents[p]
    decreases |es|
  {
    hide Step, SysInv, ReleasedBy, MayWrite;
    var n := |es|;
    if n == 0 {
      OwnedHasContents(ss[0], p);
    } else {
      RunFront(ss, es, n - 1);
      var front := ss[..n];
      forall k | 0 <= k < n - 1 && p in front[k].owner
        ensures !ReleasedBy(front[k], es[..n - 1][k], p) && !MayWrite(front[k], es[..n - 1][k], p)
      {
        assert es[..n - 1][k] == es[k];
      }
      PayloadStable(front, es[..n - 1], p);
      RunKeepsSysInv(ss, es, n - 1);
      assert Step(ss[n - 1], es[n - 1], ss[n]);
      OnlyOwnerReleases(ss[n - 1], es[n - 1], ss[n], p);
      StepKeepsPayload(ss[n - 1], es[n - 1], ss[n], p);
    }
  }

  lemma OwnedHasContents(s: Sys, p: int)
    requires SysInv(s) && p in s.owner
    ensures p in s.contents
  {
  }

  // ---------- messages ----------

  function SentBy(e: Event, i: int): seq<Message> {
    if e.Send? && e.to == i && e.p != 0 then [Message(e.from, e.to, e.kind, e.data)] else []
  }

  function TakenBy(e: Event, i: int): seq<Message> {
    if (e.Receive? || e.Process?) && e.pid == i then e.took else []
  }

  /** The messages successfully sent to process `i`, oldest first. */
  function Sent(es: seq<Event>, i: int): seq<Message> {
    if |es| == 0 then [] else Sent(es[..|es| - 1], i) + SentBy(es[|es| - 1], i)
  }

  /** The messages process `i` has taken, in this order. */
  function Taken(es: seq<Event>, i: int): seq<Message> {
    if |es| == 0 then [] else Taken(es[..|es| - 1], i) + TakenBy(es[|es| - 1], i)
  }

  lemma TakeConserves(s: Sys, t: Sys, pid: int, took: seq<Message>, touched: set<int>, i: int)
    requires HasMail(s, pid) && Takes(s, t, pid, took, touched) && 0 <= i < QUEUES
    ensures |t.queues| == QUEUES && s.queues[i] == (if i == pid then took else []) + t.queues[i]
  {
  }

  lemma StepConserves(s: Sys, e: Event, t: Sys, i: int)
    requires SysInv(s) && Step(s, e, t) && 0 <= i < QUEUES
    ensures |s.queues| == |t.queues| == QUEUES
    ensures s.queues[i] + SentBy(e, i) == TakenBy(e, i) + t.queues[i]
  {
    hide Inv, Alloc, Free, PagesOwned, EntriesOwned, With, Without, WithOwners, Shaped, SameContents, Takes, Owned,
         Loader.AllocSeq;
    match e
    case Receive(pid, _, took, touched) =>
      if HasMail(s, pid) { TakeConserves(s, t, pid, took, touched, i); }
    case Process(pid, took) =>
      if HasMail(s, pid) { TakeConserves(s, t, pid, took, {}, i); }
    case _ =>
  }

  /** FIFO and conservation: what was queued and has been sent is what has been taken, in
      order, followed by what is still queued. Nothing is lost, duplicated or reordered. */
  lemma {:induction false} MessagesConserved(ss: seq<Sys>, es: seq<Event>, i: int)
    requires Run(ss, es) && SysInv(ss[0]) && 0 <= i < QUEUES
    ensures |ss[0].queues| == |ss[|es|].queues| == QUEUES
    ensures ss[0].queues[i] + Sent(es, i) == Taken(es, i) + ss[|es|].queues[i]
    decreases |es|
  {
    hide Step, SysInv, Sent, Taken, SentBy, TakenBy;
    var n := |es|;
    if n == 0 {
      QueueCount(ss[0]);
      EmptyLogs(i);
      assert es == [];
    } else {
      var front, e := es[..n - 1], es[n - 1];
      RunFront(ss, es, n - 1);
      MessagesConserved(ss[..n], front, i);
      RunKeepsSysInv(ss, es, n - 1);
      assert Step(ss[n - 1], e, ss[n]);
      StepConserves(ss[n - 1], e, ss[n], i);
      LogSnoc(es, i);
      Regroup(ss[0].queues[i], Sent(front, i), Taken(front, i), ss[n - 1].queues[i], SentBy(e, i), TakenBy(e, i),
          ss[n].queues[i]);
    }
  }

  lemma QueueCount(s: Sys)
    requires SysInv(s)
    ensures |s.queues| == QUEUES
  {
  }

  lemma LogSnoc(es: seq<Event>, i: int)
    requires |es| > 0
    ensures Sent(es, i) == Sent(es[..|es| - 1], i) + SentBy(es[|es| - 1], i)
    ensures Taken(es, i) == Taken(es[..|es| - 1], i) + TakenBy(es[|es| - 1], i)
  {
  }

  lemma EmptyLogs(i: int)
    ensures Sent([], i) == [] && Taken([], i) == []
  {
  }

  lemma Regroup(q0: seq<Message>, a: seq<Message>, b: seq<Message>, q1: seq<Message>, c: seq<Message>,
                d: seq<Message>, q2: seq<Message>)
    requires q0 + a == b + q1 && q1 + c == d + q2
    ensures q0 + (a + c) == (b + d) + q2
  {
    assert q0 + (a + c) == (q0 + a) + c == (b + q1) + c == b + (q1 + c) == b + (d + q2) == (b + d) + q2;
  }

  /** From empty queues, the k-th message taken is the k-th message sent. */
  lemma TakenIsSent(ss: seq<Sys>, es: seq<Event>, i: int)
    requires Run(ss, es) && SysInv(ss[0]) && 0 <= i < QUEUES && |ss[0].queues| == QUEUES && ss[0].queues[i] == []
    ensures Taken(es, i) <= Sent(es, i)
  {
    hide Step, SysInv, Sent, Taken;
    MessagesConserved(ss, es, i);
    assert ss[0].queues[i] + Sent(es, i) == Sent(es, i);
  }

  lemma {:induction false} SentAt(es: seq<Event>, i: int, n: nat) returns (u: nat)
    requires n < |Sent(es, i)|
    ensures u < |es| && es[u].Send? && es[u].to == i && es[u].p != 0
    ensures |Sent(es[..u], i)| == n && Sent(es, i)[n] == Message(es[u].from, es[u].to, es[u].kind, es[u].data)
    decreases |es|
  {
    var front := es[..|es| - 1];
    if n < |Sent(front, i)| {
      u := SentAt(front, i, n);
      assert front[..u] == es[..u];
    } else {
      u := |es| - 1;
    }
  }

  /** End to end: every message that `ipc_receive` takes comes from one earlier `ipc_send` to
      this process, the one with as many sends before it as messages had been taken, whatever
      else happened in between; it carries the sender's pid, type and bytes. */
  lemma MatchingSend(ss: seq<Sys>, es: seq<Event>, r: nat) returns (u: nat)
    requires Run(ss, es) && SysInv(ss[0]) && r < |es| && es[r].Receive? && es[r].took != []
    requires forall i :: 0 <= i < |ss[0].queues| ==> ss[0].queues[i] == []
    ensures u < r && es[u].Send? && es[u].to == es[r].pid && es[u].p != 0
    ensures es[r].took == [Message(es[u].from, es[u].to, es[u].kind, es[u].data)]
    ensures |Sent(es[..u], es[r].pid)| == |Taken(es[..r], es[r].pid)|
  {
    hide SysInv;
    var i, before := es[r].pid, es[..r];
    RunFront(ss, es, r);
    RunKeepsSysInv(ss, es, r);
    assert Step(ss[r], es[r], ss[r + 1]);
    QueueCount(ss[0]);
    hide Step, Sent, Taken;
    MessagesConserved(ss[..r + 1], before, i);
    assert Sent(before, i) == Taken(before, i) + ss[r].queues[i] by {
      assert ss[0].queues[i] + Sent(before, i) == Sent(before, i);
    }
    u := SentAt(before, i, |Taken(before, i)|);
    assert before[..u] == es[..u];
  }

  // ---------- capabilities ----------

  /** What an event means for the sandbox table. */
  function SlotChange(e: Event): seq<SlotEvent> {
    match e
    case SandboxCreate(i, p) => if i == -1 then [] else if p == 0 then [Failed(i)] else [Created(i, p)]
    case SandboxDestroy(i, ok) => if ok then [Destroyed(i)] else []
    case SandboxGrant(i, caps, ok) => if ok then [Granted(i, caps)] else []
    case SandboxRevoke(i, caps, ok) => if ok then [Revoked(i, caps)] else []
    case _ => []
  }

  function SlotLog(es: seq<Event>): seq<SlotEvent> {
    if |es| == 0 then [] else SlotLog(es[..|es| - 1]) + SlotChange(es[|es| - 1])
  }

  lemma StepSlots(s: Sys, e: Event, t: Sys)
    requires SysInv(s) && Step(s, e, t)
    ensures SlotChange(e) == [] ==> t.slots == s.slots
    ensures SlotChange(e) != [] ==> Possible(s.slots, SlotChange(e)[0]) && t.slots == After(s.slots, SlotChange(e)[0])
  {
    hide Inv, Alloc, Free, NodesOwned, EntriesOwned, With, Without, WithOwners, Shaped, Owned, SameContents;
    PagesSlots(s);
  }

  lemma TableSnoc(t: seq<Slot>, log: seq<SlotEvent>, change: seq<SlotEvent>)
    requires History(t, log) && |change| <= 1 && (change != [] ==> Possible(Table(t, log), change[0]))
    ensures History(t, log + change)
    ensures Table(t, log + change) == if change == [] then Table(t, log) else After(Table(t, log), change[0])
  {
    if change == [] {
      assert log + change == log;
    } else {
      assert (log + change)[..|log| + 1 - 1] == log;
    }
  }

  /** In every run the table is the one its log of creations, destructions, grants and
      revocations stands for. */
  lemma {:induction false} TableFollowsLog(ss: seq<Sys>, es: seq<Event>)
    requires Run(ss, es) && SysInv(ss[0])
    ensures History(ss[0].slots, SlotLog(es)) && Table(ss[0].slots, SlotLog(es)) == ss[|es|].slots
    decreases |es|
  {
    hide Step, SysInv, History, Table, Possible, After, SlotChange;
    var n := |es|;
    if n == 0 {
      EmptyHistory(ss[0].slots);
    } else {
      RunFront(ss, es, n - 1);
      TableFollowsLog(ss[..n], es[..n - 1]);
      RunKeepsSysInv(ss, es, n - 1);
      assert Step(ss[n - 1], es[n - 1], ss[n]);
      StepSlots(ss[n - 1], es[n - 1], ss[n]);
      ShortChange(es[n - 1]);
      TableSnoc(ss[0].slots, SlotLog(es[..n - 1]), SlotChange(es[n - 1]));
    }
  }

  lemma EmptyHistory(t: seq<Slot>)
    ensures History(t, []) && Table(t, []) == t
  {
  }

  lemma ShortChange(e: Event)
    ensures |SlotChange(e)| <= 1
  {
  }

  /** The rights in `required` are held by sandbox `id` after the events `es`: it was created
      and not destroyed since, and each of them was granted last, not revoked, since then. */
  ghost predicate Holds(es: seq<Event>, id: int, required: bv32) {
    && 0 <= id < SLOTS && InUse(SlotLog(es), id)
    && forall b {:trigger Has(required, b)} :: IsBit(b) && Has(required, b) ==> LastGranted(SlotLog(es), id, b)
  }

  /** Permissions in every run from an empty table, for any slot and any mask: the check of
      `sandbox_check_permission` succeeds exactly when the history says so. */
  lemma PermissionsInRuns(ss: seq<Sys>, es: seq<Event>, k: nat, id: int, required: bv32)
    requires Run(ss, es) && SysInv(ss[0]) && Fresh(ss[0].slots) && k <= |es|
    ensures Permits(ss[k].slots, id, required) <==> Holds(es[..k], id, required)
  {
    hide Step, InUse, LastGranted, Table, History, Covers, IsBit, Has, NodesOwned, EntriesOwned, Shaped, Owned, Inv;
    RunFront(ss, es, k);
    TableFollowsLog(ss[..k + 1], es[..k]);
    RunKeepsSysInv(ss, es, k);
    PagesSlots(ss[k]);
    if 0 <= id < SLOTS {
      CapabilityHistory(ss[0].slots, SlotLog(es[..k]), id, required);
    }
  }

  /** The gate: in every run from an empty table, `sandbox_syscall` answers 0 only to an IPC
      send by a sandbox that holds the system-call and the IPC right by its history, and to
      every such call. */
  lemma SyscallGate(ss: seq<Sys>, es: seq<Event>, k: nat)
    requires Run(ss, es) && SysInv(ss[0]) && Fresh(ss[0].slots) && k < |es| && es[k].SandboxSyscall?
    ensures es[k].r == 0 <==>
            es[k].number == 1 && Holds(es[..k], es[k].id, 0x10) && Holds(es[..k], es[k].id, 0x20)
    ensures es[k].r == 0 || es[k].r == -1
  {
    hide SysInv, Permits, Holds, Fresh;
    assert Step(ss[k], es[k], ss[k + 1]);
    hide Step;
    PermissionsInRuns(ss, es, k, es[k].id, CAP_SYSCALL);
    PermissionsInRuns(ss, es, k, es[k].id, CAP_IPC);
  }

  // ---------- the registry ----------

  function RegisteredBy(e: Event): seq<Registry.Binding> {
    if e.Register? && e.p != 0 then [Registry.Binding(Registry.CutName(e.name), e.iface)] else []
  }

  /** The successful registrations, oldest first, under the names that were kept. */
  function Registered(es: seq<Event>): seq<Registry.Binding> {
    if |es| == 0 then []
    else Registered(es[..|es| - 1]) + RegisteredBy(es[|es| - 1])
  }

  lemma StepBindings(s: Sys, e: Event, t: Sys)
    requires Step(s, e, t)
    ensures t.bindings == RegisteredBy(e) + s.bindings
  {
    hide Alloc, Free, With, Without, WithOwners, Shaped, SameContents, Registry.CutName;
  }

  lemma StackMore(rs: seq<Registry.Binding>, more: seq<Registry.Binding>)
    requires |more| <= 1
    ensures Registry.Stack(rs + more) == more + Registry.Stack(rs)
  {
    if more == [] {
      assert rs + more == rs;
    } else {
      assert (rs + more)[..|rs|] == rs;
    }
  }

  lemma RegisteredLog(es: seq<Event>)
    ensures es == [] ==> Registered(es) == []
    ensures es != [] ==> Registered(es) == Registered(es[..|es| - 1]) + RegisteredBy(es[|es| - 1])
    ensures es != [] ==> |RegisteredBy(es[|es| - 1])| <= 1
  {
  }

  lemma {:induction false} BindingsFollowLog(ss: seq<Sys>, es: seq<Event>)
    requires Run(ss, es) && ss[0].bindings == []
    ensures ss[|es|].bindings == Registry.Stack(Registered(es))
    decreases |es|
  {
    hide Step, Registered, RegisteredBy;
    var n := |es|;
    RegisteredLog(es);
    if n > 0 {
      RunFront(ss, es, n - 1);
      BindingsFollowLog(ss[..n], es[..n - 1]);
      assert Step(ss[n - 1], es[n - 1], ss[n]);
      StepBindings(ss[n - 1], es[n - 1], ss[n]);
      StackMore(Registered(es[..n - 1]), RegisteredBy(es[n - 1]));
    }
  }

  lemma LookupStep(s: Sys, e: Event, t: Sys)
    requires Step(s, e, t) && e.Get?
    ensures e.iface == Registry.Lookup(s.bindings, e.name)
  {
  }

  /** Last writer wins: in every run from an empty registry, a lookup answers with the latest
      interface successfully registered under that name, and with NULL if there is none. */
  lemma RegistryIsMap(ss: seq<Sys>, es: seq<Event>, k: nat)
    requires Run(ss, es) && ss[0].bindings == [] && k < |es| && es[k].Get?
    ensures var m := Registry.MapOf(Registered(es[..k]));
            es[k].iface == if es[k].name in m then m[es[k].name] else 0
  {
    hide Step, Registered, Registry.MapOf, Registry.Stack;
    LookupStep(ss[k], es[k], ss[k + 1]);
    RunFront(ss, es, k);
    BindingsFollowLog(ss[..k + 1], es[..k]);
    Registry.LastWriterWins(Registered(es[..k]), es[k].name);
  }

  lemma {:induction false} BindingsShort(ss: seq<Sys>, es: seq<Event>)
    requires Run(ss, es) && ss[0].bindings == []
    ensures Registry.ShortNames(ss[|es|].bindings)
    decreases |es|
  {
    hide Step;
    var n := |es|;
    if n > 0 {
      RunFront(ss, es, n - 1);
      BindingsShort(ss[..n], es[..n - 1]);
      assert Step(ss[n - 1], es[n - 1], ss[n]);
      StepBindings(ss[n - 1], es[n - 1], ss[n]);
    }
  }

  /** In every run from an empty registry, whatever has been registered, nothing is found
      under a name of 32 or more characters. */
  lemma LongNamesNeverFound(ss: seq<Sys>, es: seq<Event>, k: nat)
    requires Run(ss, es) && ss[0].bindings == [] && k < |es| && es[k].Get? && |es[k].name| >= 32
    ensures es[k].iface == 0
  {
    hide Step;
    LookupStep(ss[k], es[k], ss[k + 1]);
    RunFront(ss, es, k);
    BindingsShort(ss[..k + 1], es[..k]);
    Registry.LongNotFound(ss[k].bindings, es[k].name);
  }

  // ---------- the heap under all its users ----------

  /** There are as many live extents as used blocks. */
  lemma {:induction false} ExtentsCount(us: seq<Block>, bs: seq<Block>, lo: int, hi: int)
    requires Tiles(bs, lo, hi) && us == UsedBlocks(bs)
    ensures |Extents(us)| == |us|
    decreases |bs|
  {
    if |bs| > 0 {
      ExtentsCount(UsedBlocks(bs[1..]), bs[1..], bs[0].End(), hi);
      if !bs[0].free {
        assert us[1..] == UsedBlocks(bs[1..]);
        HeadPtrAbsent(bs, lo, hi);
      }
    }
  }

  lemma HeadPtrAbsent(bs: seq<Block>, lo: int, hi: int)
    requires Tiles(bs, lo, hi) && |bs| > 0
    ensures bs[0].Ptr() !in Live(bs[1..])
  {
    if bs[0].Ptr() in Live(bs[1..]) {
      LiveRange(bs[1..], bs[0].End(), hi, bs[0].Ptr());
    }
  }

  /** The bytes for which an event has asked `kmalloc` and got NULL; 0 if it has not, or has
      asked for nothing. */
  function TurnedDown(s: Sys, e: Event): word {
    match e
    case Malloc(n, p) => if p == 0 then n else 0
    case Send(_, to, _, data, p) => if to < QUEUES && p == 0 && DATA + |data| <= 0xFFFF_FFF8 then DATA + |data| else 0
    case SandboxCreate(slot, p) => if slot != -1 && p == 0 then SANDBOX_MEMORY_SIZE else 0
    case SandboxAlloc(id, n, p) => if Permits(s.slots, id, CAP_ACCESS_MEMORY) && p == 0 then n else 0
    case Register(_, _, p) => if p == 0 then Registry.ENTRY_SIZE else 0
    case Load(_, _, denied) => denied
    case _ => 0
  }

  /** The state in which it has: a load asks for one segment after the other, all other calls
      ask once. */
  function AskedIn(s: Sys, e: Event, t: Sys): Sys {
    if e.Load? then t else s
  }

  lemma TurnedDownByHeap(s: Sys, e: Event, t: Sys)
    requires Step(s, e, t) && TurnedDown(s, e) > 0
    ensures Alloc(AskedIn(s, e, t).heap, TurnedDown(s, e)).1 == 0
  {
    hide Alloc, SameContents, SameClients, Permits, After, LowestFree, Loader.AllocSeq;
  }

  /** The success guarantee for the whole system, whoever asks: a call may fail for want of
      memory only if little is free, measured by the number of blocks that have an owner. */
  lemma FailsOnlyWhenFull(ss: seq<Sys>, es: seq<Event>, k: nat)
    requires Run(ss, es) && SysInv(ss[0]) && k < |es| && TurnedDown(ss[k], es[k]) > 0
    ensures var z := AskedIn(ss[k], es[k], ss[k + 1]);
      z.heap.hi - z.heap.lo - z.heap.inUse <= (|z.owner| + 2) * (Align(TurnedDown(ss[k], es[k])) + 8)
  {
    hide Tiles, Step, Alloc, Align, UsedBlocks, Extents, TurnedDown, SysInv;
    RunKeepsSysInv(ss, es, k);
    RunKeepsSysInv(ss, es, k + 1);
    assert Step(ss[k], es[k], ss[k + 1]);
    TurnedDownByHeap(ss[k], es[k], ss[k + 1]);
    FullByOwners(AskedIn(ss[k], es[k], ss[k + 1]), TurnedDown(ss[k], es[k]));
  }

  lemma FullByOwners(s: Sys, n: word)
    requires SysInv(s) && n > 0 && Alloc(s.heap, n).1 == 0
    ensures s.heap.hi - s.heap.lo - s.heap.inUse <= (|s.owner| + 2) * (Align(n) + 8)
  {
    hide Tiles, Alloc, Align, UsedBlocks, Extents;
    NullMeansFull(s.heap, n);
    ExtentsCount(UsedBlocks(s.heap.blocks), s.heap.blocks, s.heap.lo, s.heap.hi);
    SameSize(s.owner, s.heap.Live());
  }

  lemma SameSize<A, B>(m: map<int, A>, n: map<int, B>)
    requires m.Keys == n.Keys
    ensures |m| == |n|
  {
    assert |m| == |m.Keys| && |n| == |n.Keys|;
  }

  /** Whoever uses the heap, and in whatever order: never more than one pair of adjacent free
      blocks, and the statistics always add up. */
  lemma HeapInEveryRun(ss: seq<Sys>, es: seq<Event>, k: nat)
    requires Run(ss, es) && SysInv(ss[0]) && k <= |es|
    ensures var h := ss[k].heap;
      && Pairs(h.blocks) <= 1 && |h.blocks| <= 2 * |ss[k].owner| + 2
      && h.inUse == UsedBytes(h.blocks) && h.hi - h.lo - h.inUse == FreeBytes(h.blocks)
      && (h.allocs - h.frees) % ADDRESS_SPACE == |ss[k].owner|
  {
    RunKeepsSysInv(ss, es, k);
    hide Tiles, Step, UsedBlocks, Extents, Pairs;
    var h := ss[k].heap;
    FreeBytesFromStats(h);
    ExtentsCount(UsedBlocks(h.blocks), h.blocks, h.lo, h.hi);
    SameSize(ss[k].owner, h.Live());
  }

  // ---------- the history of a state ----------

  /** A state right after boot: nobody has called anything yet. */
  ghost predicate Booted(s: Sys) {
    && SysInv(s) && Fresh(s.slots) && s.bindings == []
    && forall i :: 0 <= i < |s.queues| ==> s.queues[i] == []
  }

  /** State `s` has come about from boot by the events `es`. */
  ghost predicate Reached(es: seq<Event>, s: Sys) {
    exists ss :: Run(ss, es) && Booted(ss[0]) && ss[|es|] == s
  }

  lemma ReachedAtBoot(s: Sys)
    requires Booted(s)
    ensures Reached([], s)
  {
    var ss, es: seq<Event> := [s], [];
    assert Run(ss, es) && ss[|es|] == s;
  }

  /** One more call: what `Kernel` does with its history. */
  lemma ReachedNext(es: seq<Event>, s: Sys, e: Event, t: Sys)
    requires SysInv(s) && Reached(es, s) && Step(s, e, t)
    ensures SysInv(t) && Reached(es + [e], t)
  {
    hide Step, SysInv, Booted;
    StepKeepsInv(s, e, t);
    var ss: seq<Sys> :| Run(ss, es) && Booted(ss[0]) && ss[|es|] == s;
    var ts, fs := ss + [t], es + [e];
    forall k | 0 <= k < |fs|
      ensures Step(ts[k], fs[k], ts[k + 1])
    {
      if k < |es| {
        assert es[k] == fs[k];
      } else {
        assert ts[k] == s && ts[k + 1] == t;
      }
    }
    assert Run(ts, fs);
  }

  /** The message at the front of a queue comes from one `ipc_send` in the history: the one
      with as many sends before it as messages have been taken. */
  lemma FrontWasSent(es: seq<Event>, s: Sys, i: int) returns (u: nat)
    requires Reached(es, s) && 0 <= i < QUEUES && HasMail(s, i)
    ensures u < |es| && es[u].Send? && es[u].to == i && es[u].p != 0
    ensures s.queues[i][0] == Message(es[u].from, es[u].to, es[u].kind, es[u].data)
    ensures |Sent(es[..u], i)| == |Taken(es, i)|
  {
    hide SysInv, Step, Sent, Taken, Fresh;
    var ss: seq<Sys> :| Run(ss, es) && Booted(ss[0]) && ss[|es|] == s;
    QueueCount(ss[0]);
    MessagesConserved(ss, es, i);
    assert ss[0].queues[i] + Sent(es, i) == Sent(es, i);
    u := SentAt(es, i, |Taken(es, i)|);
  }

  /** What the history says about permissions and about the registry. */
  lemma HistoryOfRights(es: seq<Event>, s: Sys, id: int, required: bv32)
    requires Reached(es, s)
    ensures Permits(s.slots, id, required) <==> Holds(es, id, required)
  {
    hide SysInv, Step, Permits, Holds, Fresh;
    var ss: seq<Sys> :| Run(ss, es) && Booted(ss[0]) && ss[|es|] == s;
    PermissionsInRuns(ss, es, |es|, id, required);
    assert es[..|es|] == es;
  }

  lemma HistoryOfNames(es: seq<Event>, s: Sys, name: seq<byte>)
    requires Reached(es, s)
    ensures name in Registry.MapOf(Registered(es)) <==> Registry.Names(s.bindings, name)
    ensures var m := Registry.MapOf(Registered(es));
            Registry.Lookup(s.bindings, name) == if name in m then m[name] else 0
    ensures |name| >= 32 ==> Registry.Lookup(s.bindings, name) == 0
  {
    hide SysInv, Step, Registered, Fresh;
    var ss: seq<Sys> :| Run(ss, es) && Booted(ss[0]) && ss[|es|] == s;
    BindingsFollowLog(ss, es);
    BindingsShort(ss, es);
    Registry.LastWriterWins(Registered(es), name);
    Registry.NamesOfStack(Registered(es), name);
    if |name| >= 32 { Registry.LongNotFound(s.bindings, name); }
  }
}
