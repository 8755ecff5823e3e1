/** What the single steps of kernel/src/ipc/ipc.c do to memory: grants, list links, the bytes
    stored for the caller, and why none of them disturbs headers, queues or other owners. */
module IpcSteps {
  import opened Bytes
  import opened Blocks
  import opened HeapImage
  import opened List
  import opened IpcImage

  /** The bytes `ipc_receive` may write for its caller. */
  ghost predicate OutByte(fromPid: int, buffer: int, size: int, kind: int, a: int) {
    || (fromPid != 0 && fromPid <= a < fromPid + 4)
    || (kind != 0 && kind <= a < kind + 4)
    || (buffer != 0 && buffer <= a < buffer + size)
  }

  ghost predicate OutsElsewhere(lo: int, hi: int, base: int, others: map<int, int>, fromPid: int, buffer: int,
                                size: int, kind: int) {
    forall a {:trigger OutByte(fromPid, buffer, size, kind, a)} ::
      OutByte(fromPid, buffer, size, kind, a) ==> Elsewhere(lo, hi, base, others, a)
  }

  lemma SparedButSame(m: Memory, lo: int, hi: int, base: int, others: map<int, int>, fromPid: int, buffer: int,
                      size: int, kind: int)
    ensures SparedBut(m, m, lo, hi, base, others, fromPid, buffer, size, kind)
  {
  }

  /** Fewer bytes for the caller. */
  lemma OutsFewer(lo: int, hi: int, base: int, others: map<int, int>, fromPid: int, buffer: int, size: int, r: int,
                  kind: int)
    requires OutsElsewhere(lo, hi, base, others, fromPid, buffer, size, kind) && r <= size
    ensures OutsElsewhere(lo, hi, base, others, fromPid, buffer, r, kind)
    ensures forall a :: OutByte(fromPid, buffer, r, kind, a) ==> OutByte(fromPid, buffer, size, kind, a)
  {
    hide Elsewhere;
    assert forall a :: OutByte(fromPid, buffer, r, kind, a) ==> OutByte(fromPid, buffer, size, kind, a);
  }

  /** `Spared`, apart from what the caller asked for. */
  ghost predicate SparedBut(m: Memory, n: Memory, lo: int, hi: int, base: int, others: map<int, int>,
                            fromPid: int, buffer: int, size: int, kind: int) {
    |m| == |n|
    && forall a {:trigger n[a]} {:trigger m[a]} ::
         0 <= a < |m| && Elsewhere(lo, hi, base, others, a) && !OutByte(fromPid, buffer, size, kind, a) ==> n[a] == m[a]
  }

  function StoreIf(m: Memory, p: word, v: word): (n: Memory)
    requires p <= |m| - 4
    ensures |n| == |m|
  {
    if p != 0 then PutWord(m, p, v) else m
  }

  /** All stores of `ipc_receive` for its caller. */
  function DeliverImage(m: Memory, msg: Message, fromPid: word, buffer: word, r: word, kind: word): (n: Memory)
    requires fromPid <= |m| - 4 && kind <= |m| - 4 && r <= |msg.data| && (buffer != 0 ==> buffer + r <= |m|)
    ensures |n| == |m|
  {
    var m2 := StoreIf(StoreIf(m, fromPid, msg.from), kind, msg.kind);
    if r > 0 && buffer != 0 then PutBytes(m2, buffer, msg.data[..r]) else m2
  }

  lemma DeliverMeaning(m: Memory, msg: Message, fromPid: word, buffer: word, r: word, kind: word)
    requires fromPid <= |m| - 4 && kind <= |m| - 4 && r <= |msg.data| && (buffer != 0 ==> buffer + r <= |m|)
    ensures Delivered(DeliverImage(m, msg, fromPid, buffer, r, kind), fromPid, buffer, r, kind, msg)
    ensures forall a :: 0 <= a < |m| && !OutByte(fromPid, buffer, r, kind, a) ==>
        DeliverImage(m, msg, fromPid, buffer, r, kind)[a] == m[a]
  {
    hide PutWord, PutBytes, Word;
  }

  lemma PrefixOf(m: Memory, a: int, n: int, k: int, bs: seq<byte>)
    requires 0 <= a && 0 <= k <= n && a + n <= |m| && m[a..a + n] == bs
    ensures m[a..a + k] == bs[..k]
  {
  }

  /** The stores of sender and type do not reach the node they are read from. */
  lemma StoresBeside(m: Memory, p: int, fromPid: word, kind: word)
    requires Readable(m, p) && fromPid <= |m| - 4 && kind <= |m| - 4
    requires var end := p + DATA + Word(m, p + LENGTH); Beside(fromPid, 4, p, end) && Beside(kind, 4, p, end)
    ensures var n := StoreIf(StoreIf(m, fromPid, MessageAt(m, p).from), kind, MessageAt(m, p).kind);
      && Word(n, p + LENGTH) == Word(m, p + LENGTH)
      && n[p + DATA..p + DATA + Word(m, p + LENGTH)] == MessageAt(m, p).data
  {
    hide PutWord, Word;
  }

  /** `n` bytes at `p`, if any, lie outside lo..hi. */
  predicate Beside(p: int, n: int, lo: int, hi: int) {
    p == 0 || n <= 0 || p + n <= lo || hi <= p
  }

  /** The word at `p` and `n` bytes at `b` share no byte. */
  predicate WordClear(p: int, b: int, n: int) {
    b == 0 || p + 4 <= b || b + n <= p
  }

  /** What the caller finds after `ipc_receive`: the first `r` bytes of the message, its type
      and its sender, each unless a later store of the same call has overwritten it. */
  ghost predicate Delivered(m: Memory, fromPid: int, buffer: int, r: int, kind: int, msg: Message)
  {
    && 0 <= r <= |msg.data|
    && (0 < buffer && buffer + r <= |m| ==> m[buffer..buffer + r] == msg.data[..r])
    && (0 < kind <= |m| - 4 && WordClear(kind, buffer, r) ==> Word(m, kind) == msg.kind)
    && (0 < fromPid <= |m| - 4 && WordClear(fromPid, buffer, r) && WordClear(fromPid, kind, 4) ==>
        Word(m, fromPid) == msg.from)
  }

  /** The same in plain numbers. */
  lemma DeliveredPlain(m: Memory, fromPid: word, buffer: word, r: word, kind: word, msg: Message)
    requires Delivered(m, fromPid, buffer, r, kind, msg) && fromPid + 4 <= |m| && kind + 4 <= |m|
    requires buffer != 0 ==> buffer + r <= |m|
    ensures r <= |msg.data| && (buffer != 0 ==> m[buffer..buffer + r] == msg.data[..r])
    ensures kind != 0 && (buffer == 0 || kind + 4 <= buffer || buffer + r <= kind) ==> Word(m, kind) == msg.kind
    ensures (fromPid != 0 && (buffer == 0 || fromPid + 4 <= buffer || buffer + r <= fromPid)
             && (kind == 0 || fromPid + 4 <= kind || kind + 4 <= fromPid)) ==> Word(m, fromPid) == msg.from
  {
  }

  lemma SparedSame(m: Memory, lo: int, hi: int, base: int, others: map<int, int>)
    ensures Spared(m, m, lo, hi, base, others)
  {
  }

  lemma NodesAreLive(m: Memory, base: int, live: map<int, int>, q: seq<seq<int>>)
    requires QueuesOk(m, base, live, q)
    ensures forall p :: IsNode(q, p) ==> p in live
  {
    forall p | IsNode(q, p)
      ensures p in live
    {
      var i :| 0 <= i < |q| && p in q[i];
      NodesLive(m, base, live, q, i);
    }
  }

  /** The caller's bytes are the same after the grant. */
  lemma SameData(m: Memory, n: Memory, lo: int, hi: int, live: map<int, int>, data: int, size: int)
    requires Untouched(m, n, lo, hi, live) && 0 <= data && 0 <= size && data + size <= |m|
    requires forall a :: data <= a < data + size ==> Protected(lo, hi, live, a)
    ensures m[data..data + size] == n[data..data + size]
  {
    forall a | data <= a < data + size
      ensures m[a] == n[a]
    {
      assert Protected(lo, hi, live, a);
    }
  }

  lemma FilledNode(m: Memory, live: map<int, int>, p: int, to: int)
    requires p in live && 0 < p && p + live[p] <= |m| && DATA <= live[p]
    requires Word(m, p + TO_PID) == to && DATA + Word(m, p + LENGTH) <= live[p]
    ensures NodeOk(m, live, p, to)
  {
  }

  /** Sending changes nothing about what the other owners own. */
  lemma OthersAfter(live: map<int, int>, after: map<int, int>, q: seq<seq<int>>, i: int, p: int)
    requires 0 <= i < |q| && p !in live && p in after && after == live[p := after[p]]
    ensures IpcImage.Others(after, q[i := q[i] + [p]]) == IpcImage.Others(live, q)
  {
    var r := q[i := q[i] + [p]];
    assert p in r[i];
    assert IsNode(r, p);
    forall x | x in live
      ensures IsNode(r, x) <==> IsNode(q, x)
    {
      assert forall j :: 0 <= j < |q| ==> (x in r[j] <==> x in q[j]);
    }
  }

  /** Bytes that were protected before the grant do not meet the granted payload. */
  lemma DataApart(lo: int, hi: int, live: map<int, int>, after: map<int, int>, p: int, data: int, size: int)
    requires p !in live && p in after && after == live[p := after[p]] && Spread(lo, hi, after)
    requires 0 <= size && DATA + size <= after[p]
    requires forall a :: data <= a < data + size ==> Protected(lo, hi, live, a)
    ensures size == 0 || data + size <= p || p + DATA + size <= data
  {
    if size > 0 && p < data + size && data < p + DATA + size {
      GrantExposed(lo, hi, live, after, p, if data < p then p else data);
    }
  }

  lemma OthersLive(live: map<int, int>, q: seq<seq<int>>)
    ensures forall x :: x in IpcImage.Others(live, q) <==> x in live && !IsNode(q, x)
    ensures forall x :: x in IpcImage.Others(live, q) ==> IpcImage.Others(live, q)[x] == live[x]
  {
  }

  lemma TailNodes(r: seq<seq<int>>, base: int, i: int, ns: seq<int>)
    requires 0 <= i < |r| && ns == [Head(base, i)] + r[i]
    ensures forall x :: x in ns ==> x == Head(base, i) || IsNode(r, x)
  {
  }

  lemma RingApart(m: Memory, ns: seq<int>)
    requires Ring(m, ns)
    ensures Apart(ns)
  {
  }

  lemma TailApart(m: Memory, lo: int, hi: int, base: int, live: map<int, int>, q: seq<seq<int>>, i: int, p: int)
    requires QueuesOk(m, base, live, q) && Spread(lo, hi, live) && HeadsOutside(lo, hi, base) && 0 <= i < QUEUES
    requires p in live && live[p] >= DATA && !IsNode(q, p)
    ensures Apart([Head(base, i)] + q[i] + [p])
    ensures Ring(m, [Head(base, i)] + q[i])
  {
    hide Ring, NodeOk, Apart;
    NodesLive(m, base, live, q, i);
    var ns := [Head(base, i)] + q[i];
    RingApart(m, ns);
    forall k | 0 <= k < |ns|
      ensures ns[k] + NODE_SIZE <= p || p + NODE_SIZE <= ns[k]
    {
      if k > 0 {
        assert ns[k] in q[i];
        assert IsNode(q, ns[k]);
      }
    }
    ApartOneMore(ns, p);
  }

  lemma ApartOneMore(ns: seq<int>, p: int)
    requires Apart(ns) && forall k :: 0 <= k < |ns| ==> ns[k] + NODE_SIZE <= p || p + NODE_SIZE <= ns[k]
    ensures Apart(ns + [p])
  {
  }

  lemma TailPlaces(m: Memory, base: int, live: map<int, int>, q: seq<seq<int>>, i: int, p: int)
    requires QueuesOk(m, base, live, q) && 0 <= i < QUEUES && p in live && live[p] >= DATA
    ensures LinkPlaces(base, live, [Head(base, i)] + q[i] + [p], i)
  {
    NodesLive(m, base, live, q, i);
  }

  /** Initializing the links of a node beside a ring does not disturb the ring. */
  lemma RingBeside(m: Memory, n: Memory, ns: seq<int>, p: int)
    requires Ring(m, ns) && OnlyLinks(m, n, [p]) && Apart(ns + [p])
    ensures Ring(n, ns)
  {
    forall a | 0 <= a < |m| && InLinks(ns, a)
      ensures n[a] == m[a]
    {
      var k :| 0 <= k < |ns| && ns[k] <= a < ns[k] + NODE_SIZE;
      assert (ns + [p])[k] == ns[k] && (ns + [p])[|ns|] == p;
      assert !InLinks([p], a);
    }
    RingKept(m, n, ns);
  }

  lemma LinksChain(m: Memory, n: Memory, o: Memory, ns: seq<int>, p: int)
    requires OnlyLinks(m, n, [p]) && OnlyLinks(n, o, ns + [p])
    ensures OnlyLinks(m, o, ns + [p])
  {
    forall a | 0 <= a < |m| && !InLinks(ns + [p], a)
      ensures o[a] == m[a]
    {
      assert (ns + [p])[|ns|] == p;
      assert !InLinks([p], a);
    }
  }

  /** Link bytes lie in live payloads or outside the heap, so headers survive. */
  lemma LinksInPayloads(m: Memory, n: Memory, bs: seq<Block>, lo: int, hi: int, base: int, ns: seq<int>, i: int)
    requires Headers(m, bs) && Tiles(bs, lo, hi) && OnlyLinks(m, n, ns) && HeadsOutside(lo, hi, base)
    requires 0 <= i < QUEUES && LinkPlaces(base, Live(bs), ns, i)
    ensures Headers(n, bs)
  {
    hide Tiles, UsedBlocks, Extents;
    forall a | 0 <= a < |m| && !Protected(lo, hi, Live(bs), a)
      ensures n[a] == m[a]
    {
      forall k | 0 <= k < |ns|
        ensures !(ns[k] <= a < ns[k] + NODE_SIZE)
      {
        assert ns[k] in ns;
      }
    }
    HeadersKept(m, n, bs, lo, hi);
  }

  /** No other owner's block is on the list. */
  lemma OthersOffList(base: int, live: map<int, int>, r: seq<seq<int>>, i: int, ns: seq<int>)
    requires forall x :: x in ns ==> x == Head(base, i) || IsNode(r, x)
    requires Head(base, i) !in live
    ensures forall x :: x in IpcImage.Others(live, r) ==>
        x in live && live[x] == IpcImage.Others(live, r)[x] && x !in ns
  {
  }

  lemma FirstMessage(m: Memory, ps: seq<int>)
    ensures |Messages(m, ps)| == |ps|
    ensures |ps| > 0 ==> Messages(m, ps)[0] == MessageAt(m, ps[0])
  {
    if |ps| > 0 { FirstMessage(m, ps[1..]); }
  }

  lemma MailNodes(m: Memory, ps: seq<int>)
    requires Messages(m, ps) != []
    ensures ps != []
  {
  }

  lemma QueueRing(m: Memory, base: int, live: map<int, int>, q: seq<seq<int>>, i: int)
    requires QueuesOk(m, base, live, q) && 0 <= i < QUEUES
    ensures Ring(m, [Head(base, i)] + q[i])
    ensures LinkPlaces(base, live, [Head(base, i)] + q[i], i)
  {
    NodesLive(m, base, live, q, i);
  }

  /** A byte that is none of the queues' business is not in the payload of a queue node. */
  lemma OutsApart(lo: int, hi: int, base: int, live: map<int, int>, others: map<int, int>, p: int,
                  fromPid: int, buffer: int, size: int, kind: int)
    requires Spread(lo, hi, live) && p in live && p !in others
    requires forall x :: x in others ==> x in live && live[x] == others[x]
    requires OutsElsewhere(lo, hi, base, others, fromPid, buffer, size, kind)
    ensures forall a :: OutByte(fromPid, buffer, size, kind, a) ==> !(p <= a < p + live[p])
  {
    forall a | OutByte(fromPid, buffer, size, kind, a)
      ensures !(p <= a < p + live[p])
    {
      ElsewhereApart(lo, hi, base, live, others, p, a);
    }
  }

  lemma OutsBeside(live: map<int, int>, p: int, end: int, fromPid: int, buffer: int, size: int, kind: int)
    requires p in live && p < end <= p + live[p]
    requires forall a :: OutByte(fromPid, buffer, size, kind, a) ==> !(p <= a < p + live[p])
    ensures Beside(fromPid, 4, p, end) && Beside(kind, 4, p, end) && Beside(buffer, size, p, end)
  {
    var a, b, c := Later(fromPid, p), Later(kind, p), Later(buffer, p);
    assert OutByte(fromPid, buffer, size, kind, a) ==> !(p <= a < p + live[p]);
    assert OutByte(fromPid, buffer, size, kind, b) ==> !(p <= b < p + live[p]);
    assert OutByte(fromPid, buffer, size, kind, c) ==> !(p <= c < p + live[p]);
  }

  function Later(x: int, y: int): int {
    if x < y then y else x
  }

  lemma NodeReads(m: Memory, live: map<int, int>, p: int, to: int)
    requires NodeOk(m, live, p, to)
    ensures Readable(m, p) && p in live && DATA + Word(m, p + LENGTH) <= live[p] && 0 < p && p + live[p] <= |m|
  {
  }

  lemma ElsewhereApart(lo: int, hi: int, base: int, live: map<int, int>, others: map<int, int>, p: int, a: int)
    requires Spread(lo, hi, live) && p in live && p !in others && Elsewhere(lo, hi, base, others, a)
    requires forall x :: x in others ==> x in live && live[x] == others[x]
    ensures !(p <= a < p + live[p])
  {
    if !((a < lo || hi <= a) && !(base <= a < base + HEADS_SIZE)) {
      var x :| x in others && x <= a < x + others[x];
      assert x in live && (x < p || p < x);
    }
  }

  /** The caller's memory is neither a header nor a queue node, so the stores for the caller
      leave the heap and the queues in place. */
  lemma OutWrite(m: Memory, n: Memory, bs: seq<Block>, lo: int, hi: int, base: int, others: map<int, int>,
                 q: seq<seq<int>>, fromPid: int, buffer: int, size: int, kind: int)
    requires Headers(m, bs) && Tiles(bs, lo, hi) && Spread(lo, hi, Live(bs)) && HeadsOutside(lo, hi, base)
    requires QueuesOk(m, base, Live(bs), q) && |m| == |n|
    requires forall x :: x in others ==> x in Live(bs) && Live(bs)[x] == others[x] && !IsNode(q, x)
    requires OutsElsewhere(lo, hi, base, others, fromPid, buffer, size, kind)
    requires forall a :: 0 <= a < |m| && !OutByte(fromPid, buffer, size, kind, a) ==> n[a] == m[a]
    ensures Headers(n, bs) && QueuesOk(n, base, Live(bs), q)
    ensures forall i :: 0 <= i < QUEUES ==> Messages(n, q[i]) == Messages(m, q[i])
  {
    hide OutByte, Tiles, UsedBlocks, Extents, Messages, QueueOk, IsNode;
    var live := Live(bs);
    forall a | 0 <= a < |m| && !Protected(lo, hi, live, a)
      ensures n[a] == m[a]
    {
      assert !Elsewhere(lo, hi, base, others, a);
    }
    HeadersKept(m, n, bs, lo, hi);
    forall i | 0 <= i < QUEUES
      ensures QueueOk(n, base, live, q[i], i) && Messages(n, q[i]) == Messages(m, q[i])
    {
      NodesLive(m, base, live, q, i);
      forall a | Head(base, i) <= a < Head(base, i) + NODE_SIZE && 0 <= a < |m|
        ensures n[a] == m[a]
      {
        assert !Elsewhere(lo, hi, base, others, a);
      }
      forall p, a | p in q[i] && p in live && p <= a < p + live[p] && 0 <= a < |m|
        ensures n[a] == m[a]
      {
        OnList(q, i, p);
        if Elsewhere(lo, hi, base, others, a) { ElsewhereApart(lo, hi, base, live, others, p, a); }
      }
      QueueKept(m, n, base, live, live, q[i], i);
    }
  }

  lemma OnList(q: seq<seq<int>>, i: int, p: int)
    requires 0 <= i < |q| && p in q[i]
    ensures IsNode(q, p)
  {
  }

  lemma FewerNodes(q: seq<seq<int>>, i: int)
    requires 0 <= i < |q| && q[i] != []
    ensures forall p :: IsNode(q[i := q[i][1..]], p) ==> IsNode(q, p)
  {
    var r := q[i := q[i][1..]];
    forall p | IsNode(r, p)
      ensures IsNode(q, p)
    {
      var j :| 0 <= j < |r| && p in r[j];
      assert p in q[j];
    }
  }

  lemma OutNode(m: Memory, n: Memory, live: map<int, int>, p: int, to: int, fromPid: int, buffer: int, size: int,
                kind: int)
    requires NodeOk(m, live, p, to) && |m| == |n|
    requires forall a :: OutByte(fromPid, buffer, size, kind, a) ==> !(p <= a < p + live[p])
    requires forall a :: 0 <= a < |m| && !OutByte(fromPid, buffer, size, kind, a) ==> n[a] == m[a]
    ensures NodeOk(n, live, p, to)
  {
    hide OutByte;
    MessageKept(m, n, live, live, p, to);
  }

  /** Freeing the node does not touch what has just been stored for the caller. */
  lemma OutsKept(m: Memory, n: Memory, lo: int, hi: int, base: int, others: map<int, int>,
                 fromPid: int, buffer: int, size: int, kind: int)
    requires Spared(m, n, lo, hi, base, others)
    requires OutsElsewhere(lo, hi, base, others, fromPid, buffer, size, kind)
    ensures |m| == |n| && forall a :: 0 <= a < |m| && OutByte(fromPid, buffer, size, kind, a) ==> n[a] == m[a]
  {
  }

  lemma DeliveredKept(m: Memory, n: Memory, fromPid: int, buffer: int, r: int, kind: int, msg: Message)
    requires Delivered(m, fromPid, buffer, r, kind, msg) && |m| == |n|
    requires forall a :: 0 <= a < |m| && OutByte(fromPid, buffer, r, kind, a) ==> n[a] == m[a]
    ensures Delivered(n, fromPid, buffer, r, kind, msg)
  {
    if 0 < buffer && buffer + r <= |m| { assert n[buffer..buffer + r] == m[buffer..buffer + r]; }
    if 0 < kind <= |m| - 4 { SameWord(m, n, kind); }
    if 0 < fromPid <= |m| - 4 { SameWord(m, n, fromPid); }
  }

  lemma SparedButChain(m: Memory, n: Memory, o: Memory, r: Memory, lo: int, hi: int, base: int, others: map<int, int>,
                       fromPid: int, buffer: int, size: int, kind: int)
    requires Spared(m, n, lo, hi, base, others) && Spared(o, r, lo, hi, base, others) && |n| == |o|
    requires forall a :: 0 <= a < |n| && !OutByte(fromPid, buffer, size, kind, a) ==> o[a] == n[a]
    ensures SparedBut(m, r, lo, hi, base, others, fromPid, buffer, size, kind)
  {
    hide OutByte, Elsewhere;
  }

  lemma HeadInitialized(m: Memory, n: Memory, base: int, i: int)
    requires |m| == |n| && OnlyLinks(m, n, [Head(base, i)]) && Ring(n, [Head(base, i)])
    requires 0 <= i < QUEUES && (forall j :: 0 <= j < i ==> Ring(m, [Head(base, j)]))
    ensures forall j :: 0 <= j <= i ==> Ring(n, [Head(base, j)])
    ensures forall a :: 0 <= a < |m| && !(base <= a < base + HEADS_SIZE) ==> n[a] == m[a]
  {
    hide Ring;
    forall a | 0 <= a < |m| && InLinks([Head(base, i)], a)
      ensures Head(base, i) <= a < Head(base, i) + NODE_SIZE
    {
    }
    forall j | 0 <= j < i
      ensures Ring(n, [Head(base, j)])
    {
      RingKept(m, n, [Head(base, j)]);
    }
  }

  /** Writing the list heads leaves the heap in place. */
  lemma StaticWrite(m: Memory, n: Memory, bs: seq<Block>, lo: int, hi: int, base: int)
    requires Headers(m, bs) && Tiles(bs, lo, hi) && |m| == |n| && HeadsOutside(lo, hi, base)
    requires |bs| > 0 ==> bs[|bs| - 1].size > 0
    requires forall a :: 0 <= a < |m| && !(base <= a < base + HEADS_SIZE) ==> n[a] == m[a]
    ensures Headers(n, bs) && Spared(m, n, lo, hi, base, Live(bs))
  {
    hide UsedBlocks, Extents, Tiles;
    LiveSpread(bs, lo, hi);
    HeadersKept(m, n, bs, lo, hi);
  }
}
