/** The 32 message queues of kernel/src/ipc/ipc.c in memory: list heads in a static array,
    nodes in live heap blocks, and what keeps them intact. */
module IpcImage {
  import opened Bytes
  import opened HeapImage
  import opened List

  const QUEUES := 32
  const HEADS_SIZE := 256      // 32 list heads of 8 bytes

  // offsets in struct ipc_message_node, which starts with its list links
  const FROM_PID := 8
  const TO_PID := 12
  const KIND := 16
  const LENGTH := 20
  const DATA := 24             // also sizeof(struct ipc_message_node)

  datatype Message = Message(from: word, to: word, kind: word, data: seq<byte>)

  function Head(base: int, i: int): int {
    base + NODE_SIZE * i
  }

  /** A whole message can be read at `p`. */
  predicate Readable(m: Memory, p: int) {
    0 <= p && p + DATA <= |m| && p + DATA + Word(m, p + LENGTH) <= |m|
  }

  /** The message in the node at `p`; an empty one where no message fits. */
  function MessageAt(m: Memory, p: int): Message {
    if Readable(m, p) then
      Message(Word(m, p + FROM_PID), Word(m, p + TO_PID), Word(m, p + KIND),
          m[p + DATA..p + DATA + Word(m, p + LENGTH)])
    else Message(0, 0, 0, [])
  }

  lemma MessageFields(m: Memory, p: int, msg: Message)
    requires 0 <= p && p + DATA + |msg.data| <= |m|
    requires Word(m, p + FROM_PID) == msg.from && Word(m, p + TO_PID) == msg.to && Word(m, p + KIND) == msg.kind
    requires Word(m, p + LENGTH) == |msg.data| && m[p + DATA..p + DATA + |msg.data|] == msg.data
    ensures MessageAt(m, p) == msg
  {
  }

  function Messages(m: Memory, ps: seq<int>): seq<Message> {
    if |ps| == 0 then [] else [MessageAt(m, ps[0])] + Messages(m, ps[1..])
  }

  /** A queue node is a live block large enough for its message, addressed to its queue. */
  ghost predicate NodeOk(m: Memory, live: map<int, int>, p: int, to: int) {
    && p in live && 0 < p && DATA <= live[p] && p + live[p] <= |m|
    && DATA + Word(m, p + LENGTH) <= live[p]
    && Word(m, p + TO_PID) == to
  }

  ghost predicate QueueOk(m: Memory, base: int, live: map<int, int>, ps: seq<int>, i: int) {
    && (forall k :: 0 <= k < |ps| ==> NodeOk(m, live, ps[k], i))
    && Ring(m, [Head(base, i)] + ps)
  }

  /** All queues are well formed. */
  ghost predicate QueuesOk(m: Memory, base: int, live: map<int, int>, q: seq<seq<int>>) {
    && Full(m) && |q| == QUEUES
    && 0 < base <= ADDRESS_SPACE - HEADS_SIZE
    && (forall i {:trigger q[i]} :: 0 <= i < QUEUES ==> QueueOk(m, base, live, q[i], i))
  }

  ghost predicate IsNode(q: seq<seq<int>>, p: int) {
    exists i :: 0 <= i < |q| && p in q[i]
  }

  /** The last node of queue `i` is a new block of at least `need` bytes, and at most 24 more. */
  ghost predicate NewNode(q: seq<seq<int>>, i: int, before: map<int, int>, live: map<int, int>, need: int) {
    && 0 <= i < |q| && |q[i]| > 0
    && var p := q[i][|q[i]| - 1];
    && p !in before && p in live && need <= live[p] <= need + 24
  }

  /** The array of list heads lies outside the heap. */
  ghost predicate HeadsOutside(lo: int, hi: int, base: int) {
    base + HEADS_SIZE <= lo || hi <= base
  }

  /** No node is in two queues. */
  lemma NodesUnshared(m: Memory, base: int, live: map<int, int>, q: seq<seq<int>>, i: int, j: int, p: int)
    requires QueuesOk(m, base, live, q) && 0 <= i < QUEUES && 0 <= j < QUEUES && p in q[i] && p in q[j]
    ensures i == j
  {
    assert QueueOk(m, base, live, q[i], i) && QueueOk(m, base, live, q[j], j);
    var k :| 0 <= k < |q[i]| && q[i][k] == p;
    var l :| 0 <= l < |q[j]| && q[j][l] == p;
    assert NodeOk(m, live, q[i][k], i) && NodeOk(m, live, q[j][l], j);
  }

  // ---------- frames ----------

  lemma MessageKept(m: Memory, n: Memory, live: map<int, int>, after: map<int, int>, p: int, to: int)
    requires NodeOk(m, live, p, to) && |m| == |n| && p in after && after[p] == live[p]
    requires forall a :: p + NODE_SIZE <= a < p + live[p] ==> n[a] == m[a]
    ensures NodeOk(n, after, p, to) && MessageAt(n, p) == MessageAt(m, p)
  {
    SameWord(m, n, p + FROM_PID);
    SameWord(m, n, p + TO_PID);
    SameWord(m, n, p + KIND);
    SameWord(m, n, p + LENGTH);
  }

  lemma {:induction false} MessagesKept(m: Memory, n: Memory, live: map<int, int>, after: map<int, int>,
                                        ps: seq<int>, to: int)
    requires forall k :: 0 <= k < |ps| ==> NodeOk(m, live, ps[k], to)
    requires |m| == |n|
    requires forall k :: 0 <= k < |ps| ==> ps[k] in live && ps[k] in after && after[ps[k]] == live[ps[k]]
    requires forall k, a :: 0 <= k < |ps| && 0 <= a < |m| && ps[k] + NODE_SIZE <= a < ps[k] + live[ps[k]] ==>
        n[a] == m[a]
    ensures forall k :: 0 <= k < |ps| ==> NodeOk(n, after, ps[k], to)
    ensures Messages(n, ps) == Messages(m, ps)
    decreases |ps|
  {
    hide MessageAt;
    if |ps| > 0 {
      MessageKept(m, n, live, after, ps[0], to);
      MessagesKept(m, n, live, after, ps[1..], to);
      forall k | 0 <= k < |ps|
        ensures NodeOk(n, after, ps[k], to)
      {
        if k > 0 { assert ps[k] == ps[1..][k - 1]; }
      }
    }
  }

  /** What must not change for queue `i` to stay what it is: its head and its nodes. */
  ghost predicate SameQueue(m: Memory, n: Memory, base: int, live: map<int, int>, ps: seq<int>, i: int) {
    && |m| == |n|
    && (forall a :: Head(base, i) <= a < Head(base, i) + NODE_SIZE && 0 <= a < |m| ==> n[a] == m[a])
    && (forall p, a :: p in ps && p in live && p <= a < p + live[p] && 0 <= a < |m| ==> n[a] == m[a])
  }

  lemma QueueKept(m: Memory, n: Memory, base: int, live: map<int, int>, after: map<int, int>, ps: seq<int>, i: int)
    requires QueueOk(m, base, live, ps, i) && SameQueue(m, n, base, live, ps, i)
    requires forall p :: p in ps ==> p in after && p in live && after[p] == live[p]
    ensures QueueOk(n, base, after, ps, i)
    ensures Messages(n, ps) == Messages(m, ps)
  {
    hide MessageAt, Messages, Ring, Word;
    MessagesKept(m, n, live, after, ps, i);
    var ns := [Head(base, i)] + ps;
    forall a | 0 <= a < |m| && InLinks(ns, a)
      ensures n[a] == m[a]
    {
      var k :| 0 <= k < |ns| && ns[k] <= a < ns[k] + NODE_SIZE;
      if k > 0 {
        assert NodeOk(m, live, ps[k - 1], i) && ps[k - 1] in ps;
      }
    }
    RingKept(m, n, ns);
  }

  /** Queues survive whatever leaves the protected bytes around their nodes alone. */
  lemma QueuesKept(m: Memory, n: Memory, lo: int, hi: int, base: int, live: map<int, int>, after: map<int, int>,
                   kept: map<int, int>, q: seq<seq<int>>)
    requires QueuesOk(m, base, live, q) && HeadsOutside(lo, hi, base) && Untouched(m, n, lo, hi, kept)
    requires forall p :: IsNode(q, p) && p in live ==> p in after && p in kept && after[p] == live[p] == kept[p]
    ensures QueuesOk(n, base, after, q)
    ensures forall i :: 0 <= i < QUEUES ==> QueueOk(m, base, live, q[i], i) && Messages(n, q[i]) == Messages(m, q[i])
  {
    hide Messages, NodeOk, Ring;
    forall i | 0 <= i < QUEUES
      ensures QueueOk(m, base, live, q[i], i) && QueueOk(n, base, after, q[i], i)
          && Messages(n, q[i]) == Messages(m, q[i])
    {
      NodesLive(m, base, live, q, i);
      forall a | Head(base, i) <= a < Head(base, i) + NODE_SIZE && 0 <= a < |m|
        ensures n[a] == m[a]
      {
        assert Protected(lo, hi, kept, a);
      }
      forall p, a | p in q[i] && p in live && p <= a < p + live[p] && 0 <= a < |m|
        ensures n[a] == m[a]
      {
        assert IsNode(q, p);
        assert Protected(lo, hi, kept, a);
      }
      forall p | p in q[i]
        ensures p in after && p in live && after[p] == live[p]
      {
        assert IsNode(q, p);
      }
      QueueKept(m, n, base, live, after, q[i], i);
    }
  }

  lemma NodesLive(m: Memory, base: int, live: map<int, int>, q: seq<seq<int>>, i: int)
    requires QueuesOk(m, base, live, q) && 0 <= i < QUEUES
    ensures QueueOk(m, base, live, q[i], i)
    ensures forall p :: p in q[i] ==> p in live && p > 0 && live[p] >= DATA && p + live[p] <= |m|
  {
    assert QueueOk(m, base, live, q[i], i);
    forall p | p in q[i]
      ensures p in live && p > 0 && live[p] >= DATA && p + live[p] <= |m|
    {
      var k :| 0 <= k < |q[i]| && q[i][k] == p;
      assert NodeOk(m, live, q[i][k], i);
    }
  }

  // ---------- linking and unlinking a node ----------

  /** Where the links that one list operation on queue `i` stores may lie. */
  ghost predicate LinkPlaces(base: int, live: map<int, int>, ns: seq<int>, i: int) {
    forall x :: x in ns ==> x == Head(base, i) || (x in live && live[x] >= NODE_SIZE)
  }

  /** Such a link byte lies in no message, in no head of another queue, and in no node that
      is not on the list. */
  lemma NoLinkByte(lo: int, hi: int, base: int, live: map<int, int>, ns: seq<int>, i: int, a: int)
    requires Spread(lo, hi, live) && HeadsOutside(lo, hi, base) && 0 <= i < QUEUES && LinkPlaces(base, live, ns, i)
    requires
      || (exists p :: p in live && p + NODE_SIZE <= a < p + live[p])
      || (exists p :: p in live && p !in ns && p <= a < p + live[p])
      || (exists j :: 0 <= j < QUEUES && j != i && Head(base, j) <= a < Head(base, j) + NODE_SIZE)
    ensures !InLinks(ns, a)
  {
    forall k | 0 <= k < |ns|
      ensures !(ns[k] <= a < ns[k] + NODE_SIZE)
    {
      assert ns[k] in ns;
    }
  }

  lemma MessagesUnlinked(m: Memory, n: Memory, lo: int, hi: int, base: int, live: map<int, int>, ns: seq<int>, i: int,
                         ps: seq<int>, j: int)
    requires Spread(lo, hi, live) && HeadsOutside(lo, hi, base) && 0 <= i < QUEUES && LinkPlaces(base, live, ns, i)
    requires OnlyLinks(m, n, ns) && (forall k :: 0 <= k < |ps| ==> NodeOk(m, live, ps[k], j))
    ensures forall k :: 0 <= k < |ps| ==> NodeOk(n, live, ps[k], j)
    ensures Messages(n, ps) == Messages(m, ps)
  {
    hide MessageAt, Messages, Word;
    forall k, a | 0 <= k < |ps| && 0 <= a < |m| && ps[k] + NODE_SIZE <= a < ps[k] + live[ps[k]]
      ensures n[a] == m[a]
    {
      NoLinkByte(lo, hi, base, live, ns, i, a);
    }
    MessagesKept(m, n, live, live, ps, j);
  }

  /** The other queues do not notice a list operation on queue `i`. */
  lemma OtherQueues(m: Memory, n: Memory, lo: int, hi: int, base: int, live: map<int, int>, q: seq<seq<int>>,
                    ns: seq<int>, i: int, j: int)
    requires QueuesOk(m, base, live, q) && Spread(lo, hi, live) && HeadsOutside(lo, hi, base)
    requires 0 <= i < QUEUES && 0 <= j < QUEUES && i != j && LinkPlaces(base, live, ns, i) && OnlyLinks(m, n, ns)
    requires forall p :: p in q[j] ==> p !in ns
    ensures QueueOk(n, base, live, q[j], j) && Messages(n, q[j]) == Messages(m, q[j])
  {
    hide Messages, Ring, NodeOk;
    NodesLive(m, base, live, q, j);
    forall a | Head(base, j) <= a < Head(base, j) + NODE_SIZE && 0 <= a < |m|
      ensures n[a] == m[a]
    {
      NoLinkByte(lo, hi, base, live, ns, i, a);
    }
    forall p, a | p in q[j] && p in live && p <= a < p + live[p] && 0 <= a < |m|
      ensures n[a] == m[a]
    {
      NoLinkByte(lo, hi, base, live, ns, i, a);
    }
    QueueKept(m, n, base, live, live, q[j], j);
  }

  lemma {:induction false} MessagesConcat(m: Memory, ps: seq<int>, rs: seq<int>)
    ensures Messages(m, ps + rs) == Messages(m, ps) + Messages(m, rs)
    decreases |ps|
  {
    if |ps| == 0 {
      assert ps + rs == rs;
    } else {
      assert (ps + rs)[1..] == ps[1..] + rs;
      MessagesConcat(m, ps[1..], rs);
    }
  }

  /** Linking node `p` at the tail of queue `i` appends its message and changes no other queue. */
  lemma Enqueued(m: Memory, n: Memory, lo: int, hi: int, base: int, live: map<int, int>, q: seq<seq<int>>, i: int,
                 p: int)
    requires QueuesOk(m, base, live, q) && Spread(lo, hi, live) && HeadsOutside(lo, hi, base) && 0 <= i < QUEUES
    requires NodeOk(m, live, p, i) && !IsNode(q, p)
    requires OnlyLinks(m, n, [Head(base, i)] + q[i] + [p]) && Ring(n, [Head(base, i)] + q[i] + [p])
    ensures QueuesOk(n, base, live, q[i := q[i] + [p]])
    ensures Messages(n, q[i] + [p]) == Messages(m, q[i]) + [MessageAt(m, p)]
    ensures forall j :: 0 <= j < QUEUES && j != i ==> Messages(n, q[j]) == Messages(m, q[j])
  {
    hide MessageAt, Messages, NodeOk, Ring, Word;
    var ns := [Head(base, i)] + q[i] + [p];
    assert ns == [Head(base, i)] + (q[i] + [p]);
    NodesLive(m, base, live, q, i);
    NodeLive(m, live, p, i);
    assert LinkPlaces(base, live, ns, i);
    MessagesUnlinked(m, n, lo, hi, base, live, ns, i, q[i] + [p], i);
    MessagesConcat(m, q[i], [p]);
    OneMessage(m, p);
    var r := q[i := q[i] + [p]];
    forall j | 0 <= j < QUEUES
      ensures QueueOk(n, base, live, r[j], j) && (j != i ==> Messages(n, q[j]) == Messages(m, q[j]))
    {
      if j != i {
        forall x | x in q[j]
          ensures x !in ns
        {
          NodesLive(m, base, live, q, j);
          if x in q[i] { NodesUnshared(m, base, live, q, i, j, x); }
          assert IsNode(q, x);
          HeadNotLive(lo, hi, base, live, i);
        }
        OtherQueues(m, n, lo, hi, base, live, q, ns, i, j);
      }
    }
  }

  lemma NodeLive(m: Memory, live: map<int, int>, p: int, to: int)
    requires NodeOk(m, live, p, to)
    ensures p in live && p > 0 && live[p] >= DATA && p + live[p] <= |m|
  {
  }

  lemma HeadNotLive(lo: int, hi: int, base: int, live: map<int, int>, i: int)
    requires Spread(lo, hi, live) && HeadsOutside(lo, hi, base) && 0 <= i < QUEUES
    ensures Head(base, i) !in live
  {
  }

  lemma OneMessage(m: Memory, p: int)
    ensures Messages(m, [p]) == [MessageAt(m, p)]
  {
    assert [p][1..] == [];
  }

  /** Unlinking the first node of queue `i` takes its message off the front, leaves the node's
      message readable, and changes no other queue. */
  lemma Dequeued(m: Memory, n: Memory, lo: int, hi: int, base: int, live: map<int, int>, q: seq<seq<int>>, i: int)
    requires QueuesOk(m, base, live, q) && Spread(lo, hi, live) && HeadsOutside(lo, hi, base) && 0 <= i < QUEUES
    requires |q[i]| > 0 && OnlyLinks(m, n, [Head(base, i)] + q[i]) && Ring(n, Without([Head(base, i)] + q[i], 1))
    ensures QueuesOk(n, base, live, q[i := q[i][1..]])
    ensures Messages(m, q[i]) == [MessageAt(n, q[i][0])] + Messages(n, q[i][1..])
    ensures forall j :: 0 <= j < QUEUES && j != i ==> Messages(n, q[j]) == Messages(m, q[j])
    ensures NodeOk(n, live, q[i][0], i) && !IsNode(q[i := q[i][1..]], q[i][0])
  {
    hide MessageAt, NodeOk, Ring, Word;
    var ns, p := [Head(base, i)] + q[i], q[i][0];
    NodesLive(m, base, live, q, i);
    assert QueueOk(m, base, live, q[i], i);
    assert Without(ns, 1) == [Head(base, i)] + q[i][1..];
    MessagesUnlinked(m, n, lo, hi, base, live, ns, i, q[i], i);
    var r := q[i := q[i][1..]];
    forall j | 0 <= j < QUEUES
      ensures QueueOk(n, base, live, r[j], j) && (j != i ==> Messages(n, q[j]) == Messages(m, q[j])) && p !in r[j]
    {
      if j != i {
        forall x | x in q[j]
          ensures x !in ns
        {
          NodesLive(m, base, live, q, j);
          if x in q[i] { NodesUnshared(m, base, live, q, i, j, x); }
          HeadNotLive(lo, hi, base, live, i);
        }
        OtherQueues(m, n, lo, hi, base, live, q, ns, i, j);
        assert p in ns;
      } else {
        forall k | 0 <= k < |r[i]|
          ensures NodeOk(n, live, r[i][k], i) && r[i][k] != p
        {
          assert r[i][k] == q[i][k + 1];
          RingDistinct(m, ns, 1, k + 2);
        }
      }
    }
  }

  lemma RingDistinct(m: Memory, ns: seq<int>, i: nat, j: nat)
    requires Ring(m, ns) && i < |ns| && j < |ns| && i != j
    ensures ns[i] != ns[j]
  {
  }

  // ---------- what the queues do not own ----------

  /** The live blocks that are not queue nodes. */
  ghost function Others(live: map<int, int>, q: seq<seq<int>>): map<int, int> {
    map p | p in live && !IsNode(q, p) :: live[p]
  }

  /** Bytes that are none of the queues' business: static data other than the list heads, and
      the payloads of other owners. */
  ghost predicate Elsewhere(lo: int, hi: int, base: int, others: map<int, int>, a: int) {
    || ((a < lo || hi <= a) && !(base <= a < base + HEADS_SIZE))
    || (exists p :: p in others && p <= a < p + others[p])
  }

  ghost predicate Spared(m: Memory, n: Memory, lo: int, hi: int, base: int, others: map<int, int>) {
    |m| == |n| && forall a {:trigger n[a]} {:trigger m[a]} :: 0 <= a < |m| && Elsewhere(lo, hi, base, others, a) ==>
        n[a] == m[a]
  }

  lemma SparedChain(m: Memory, n: Memory, o: Memory, lo: int, hi: int, base: int, others: map<int, int>)
    requires Spared(m, n, lo, hi, base, others) && Spared(n, o, lo, hi, base, others)
    ensures Spared(m, o, lo, hi, base, others)
  {
  }

  lemma SparedByHeap(m: Memory, n: Memory, lo: int, hi: int, base: int, others: map<int, int>, kept: map<int, int>)
    requires Untouched(m, n, lo, hi, kept) && (forall p :: p in others ==> p in kept && kept[p] == others[p])
    ensures Spared(m, n, lo, hi, base, others)
  {
    forall a | 0 <= a < |m| && Elsewhere(lo, hi, base, others, a)
      ensures n[a] == m[a]
    {
      assert Protected(lo, hi, kept, a);
    }
  }

  lemma SparedByLinks(m: Memory, n: Memory, lo: int, hi: int, base: int, live: map<int, int>, others: map<int, int>,
                      ns: seq<int>, i: int)
    requires OnlyLinks(m, n, ns) && Spread(lo, hi, live) && HeadsOutside(lo, hi, base) && 0 <= i < QUEUES
    requires LinkPlaces(base, live, ns, i)
    requires forall p :: p in others ==> p in live && live[p] == others[p] && p !in ns
    ensures Spared(m, n, lo, hi, base, others)
  {
    forall a | 0 <= a < |m| && Elsewhere(lo, hi, base, others, a)
      ensures n[a] == m[a]
    {
      if (a < lo || hi <= a) && !(base <= a < base + HEADS_SIZE) {
        forall k | 0 <= k < |ns|
          ensures !(ns[k] <= a < ns[k] + NODE_SIZE)
        {
          assert ns[k] in ns;
        }
      } else {
        NoLinkByte(lo, hi, base, live, ns, i, a);
      }
    }
  }

  /** Filling a fresh block changes nothing for queues and other owners. */
  lemma Filled(m: Memory, n: Memory, lo: int, hi: int, base: int, live: map<int, int>, others: map<int, int>,
               q: seq<seq<int>>, p: int)
    requires QueuesOk(m, base, live, q) && Spread(lo, hi, live) && HeadsOutside(lo, hi, base)
    requires p in live && !IsNode(q, p) && |m| == |n| && p !in others
    requires forall x :: x in others ==> x in live && live[x] == others[x]
    requires forall a :: 0 <= a < |m| && !(p <= a < p + live[p]) ==> n[a] == m[a]
    ensures QueuesOk(n, base, live, q) && Spared(m, n, lo, hi, base, others)
    ensures forall i :: 0 <= i < QUEUES ==> Messages(n, q[i]) == Messages(m, q[i])
  {
    hide Messages, QueueOk, IsNode;
    var kept := live - {p};
    assert Untouched(m, n, lo, hi, kept);
    QueuesKept(m, n, lo, hi, base, live, live, kept, q);
    SparedByHeap(m, n, lo, hi, base, others, kept);
  }
}
