/** include/kernel/list.h: intrusive circular doubly linked lists in flat memory. A node is
    two words, `next` at its address and `prev` four bytes on. */
module List {
  import opened Bytes

  const NEXT_LINK := 0
  const PREV_LINK := 4
  const NODE_SIZE := 8

  function After(ns: seq<int>, i: nat): int
    requires i < |ns|
  {
    if i + 1 < |ns| then ns[i + 1] else ns[0]
  }

  function Before(ns: seq<int>, i: nat): int
    requires i < |ns|
  {
    if i == 0 then ns[|ns| - 1] else ns[i - 1]
  }

  /** The links of node `i` point to its two neighbours on the ring. */
  ghost predicate NodeAt(m: Memory, ns: seq<int>, i: nat)
    requires i < |ns|
  {
    && 0 < ns[i] <= |m| - NODE_SIZE
    && Word(m, ns[i] + NEXT_LINK) == After(ns, i)
    && Word(m, ns[i] + PREV_LINK) == Before(ns, i)
  }

  /** No two nodes share a byte. */
  ghost predicate Apart(ns: seq<int>) {
    forall i, j :: 0 <= i < j < |ns| ==> ns[i] + NODE_SIZE <= ns[j] || ns[j] + NODE_SIZE <= ns[i]
  }

  /** The nodes `ns`, the head first, form one circular list. */
  ghost predicate Ring(m: Memory, ns: seq<int>) {
    && |ns| > 0
    && Apart(ns)
    && forall i {:trigger NodeAt(m, ns, i)} :: 0 <= i < |ns| ==> NodeAt(m, ns, i)
  }

  /** Address `a` is a link byte of one of the nodes. */
  ghost predicate InLinks(ns: seq<int>, a: int) {
    exists i :: 0 <= i < |ns| && ns[i] <= a < ns[i] + NODE_SIZE
  }

  /** The two memories differ in link bytes of `ns` only. */
  ghost predicate OnlyLinks(m: Memory, n: Memory, ns: seq<int>) {
    |m| == |n| && forall a {:trigger n[a]} {:trigger m[a]} :: 0 <= a < |m| && !InLinks(ns, a) ==> n[a] == m[a]
  }

  /** On a ring, `next` and `prev` undo each other. */
  lemma MutuallyInverse(m: Memory, ns: seq<int>, i: nat)
    requires Ring(m, ns) && i < |ns|
    ensures 0 < ns[i] <= |m| - NODE_SIZE
    ensures var next, prev := Word(m, ns[i] + NEXT_LINK), Word(m, ns[i] + PREV_LINK);
      && 0 < next <= |m| - NODE_SIZE && Word(m, next + PREV_LINK) == ns[i]
      && 0 < prev <= |m| - NODE_SIZE && Word(m, prev + NEXT_LINK) == ns[i]
  {
    assert NodeAt(m, ns, i);
    assert NodeAt(m, ns, if i + 1 < |ns| then i + 1 else 0);
    assert NodeAt(m, ns, if i == 0 then |ns| - 1 else i - 1);
  }

  /** A ring depends on its link bytes only. */
  lemma RingKept(m: Memory, n: Memory, ns: seq<int>)
    requires Ring(m, ns) && |m| == |n|
    requires forall a :: 0 <= a < |m| && InLinks(ns, a) ==> n[a] == m[a]
    ensures Ring(n, ns)
  {
    forall i | 0 <= i < |ns|
      ensures NodeAt(n, ns, i)
    {
      assert NodeAt(m, ns, i);
      forall a | ns[i] <= a < ns[i] + NODE_SIZE
        ensures n[a] == m[a]
      {
        assert InLinks(ns, a);
      }
      SameWord(m, n, ns[i] + NEXT_LINK);
      SameWord(m, n, ns[i] + PREV_LINK);
    }
  }

  // ---------- what the list operations store ----------

  /** `__list_add`: four stores, in the order of the source. */
  function LinkImage(m: Memory, node: word, prev: word, next: word): (n: Memory)
    requires node <= |m| - NODE_SIZE && prev <= |m| - NODE_SIZE && next <= |m| - NODE_SIZE
    ensures |n| == |m|
  {
    var m1 := PutWord(m, next + PREV_LINK, node);
    var m2 := PutWord(m1, node + NEXT_LINK, next);
    var m3 := PutWord(m2, node + PREV_LINK, prev);
    PutWord(m3, prev + NEXT_LINK, node)
  }

  /** `list_del`: the neighbours point past the entry, the entry's links become NULL. */
  function UnlinkImage(m: Memory, entry: word, prev: word, next: word): (n: Memory)
    requires entry <= |m| - NODE_SIZE && prev <= |m| - NODE_SIZE && next <= |m| - NODE_SIZE
    ensures |n| == |m|
  {
    var m1 := PutWord(m, next + PREV_LINK, prev);
    var m2 := PutWord(m1, prev + NEXT_LINK, next);
    PutWord(PutWord(m2, entry + NEXT_LINK, 0), entry + PREV_LINK, 0)
  }

  /** Two nodes are the same or share no byte. */
  ghost predicate Clear(x: int, y: int) {
    x == y || x + NODE_SIZE <= y || y + NODE_SIZE <= x
  }

  lemma LinkFields(m: Memory, node: word, prev: word, next: word)
    requires node <= |m| - NODE_SIZE && prev <= |m| - NODE_SIZE && next <= |m| - NODE_SIZE
    requires Clear(prev, next) && Clear(node, prev) && Clear(node, next) && node != prev && node != next
    ensures var n := LinkImage(m, node, prev, next);
      && Word(n, node + NEXT_LINK) == next && Word(n, node + PREV_LINK) == prev
      && Word(n, prev + NEXT_LINK) == node && Word(n, next + PREV_LINK) == node
      && (prev != next ==> Word(n, next + NEXT_LINK) == Word(m, next + NEXT_LINK))
      && (prev != next ==> Word(n, prev + PREV_LINK) == Word(m, prev + PREV_LINK))
      && (forall a ::
            (0 <= a < |m| && !(node <= a < node + NODE_SIZE) && !(prev <= a < prev + NODE_SIZE)
             && !(next <= a < next + NODE_SIZE)) ==> n[a] == m[a])
  {
    hide PutWord, Word;
  }

  /** A node untouched by a change of links keeps its place. */
  lemma NodeKept(m: Memory, n: Memory, ns: seq<int>, i: nat, os: seq<int>, k: nat)
    requires i < |ns| && NodeAt(m, ns, i) && |n| == |m|
    requires k < |os| && os[k] == ns[i] && After(os, k) == After(ns, i) && Before(os, k) == Before(ns, i)
    requires forall a :: ns[i] <= a < ns[i] + NODE_SIZE ==> n[a] == m[a]
    ensures NodeAt(n, os, k)
  {
    SameWord(m, n, ns[i] + NEXT_LINK);
    SameWord(m, n, ns[i] + PREV_LINK);
  }

  lemma ApartClear(ns: seq<int>, i: nat, j: nat)
    requires Apart(ns) && i < |ns| && j < |ns|
    ensures Clear(ns[i], ns[j]) && (i != j ==> ns[i] != ns[j])
  {
  }

  /** Adding at the tail lengthens the ring by one node behind the last. */
  lemma LinkRing(m: Memory, ns: seq<int>, node: word)
    requires Ring(m, ns) && |m| <= ADDRESS_SPACE && Apart(ns + [node]) && 0 < node <= |m| - NODE_SIZE
    ensures 0 < ns[0] <= |m| - NODE_SIZE && 0 < ns[|ns| - 1] <= |m| - NODE_SIZE
    ensures Word(m, ns[0] + PREV_LINK) == ns[|ns| - 1]
    ensures Ring(LinkImage(m, node, ns[|ns| - 1], ns[0]), ns + [node])
    ensures OnlyLinks(m, LinkImage(m, node, ns[|ns| - 1], ns[0]), ns + [node])
  {
    hide LinkImage, Word, Apart, Clear;
    var last := |ns| - 1;
    assert NodeAt(m, ns, 0) && NodeAt(m, ns, last);
    var n, os := LinkImage(m, node, ns[last], ns[0]), ns + [node];
    ApartClear(os, last, 0);
    ApartClear(os, last + 1, 0);
    ApartClear(os, last + 1, last);
    LinkFields(m, node, ns[last], ns[0]);
    forall i | 0 <= i < |os|
      ensures NodeAt(n, os, i)
    {
      if 0 < i < last {
        assert NodeAt(m, ns, i);
        OtherNode(os, i, 0);
        OtherNode(os, i, last);
        OtherNode(os, i, last + 1);
        NodeKept(m, n, ns, i, os, i);
      }
    }
    forall a | 0 <= a < |m| && !InLinks(os, a)
      ensures n[a] == m[a]
    {
      assert !(os[0] <= a < os[0] + NODE_SIZE) && !(os[last] <= a < os[last] + NODE_SIZE)
          && !(os[last + 1] <= a < os[last + 1] + NODE_SIZE);
    }
  }

  lemma OtherNode(ns: seq<int>, i: nat, j: nat)
    requires Apart(ns) && i < |ns| && j < |ns| && i != j
    ensures ns[i] + NODE_SIZE <= ns[j] || ns[j] + NODE_SIZE <= ns[i]
  {
    ApartClear(ns, i, j);
  }

  /** The ring without node `k`. */
  function Without(ns: seq<int>, k: nat): (r: seq<int>)
    requires k < |ns|
    ensures |r| == |ns| - 1
  {
    ns[..k] + ns[k + 1..]
  }

  lemma UnlinkFields(m: Memory, entry: word, prev: word, next: word)
    requires entry <= |m| - NODE_SIZE && prev <= |m| - NODE_SIZE && next <= |m| - NODE_SIZE
    requires Clear(prev, next) && Clear(entry, prev) && Clear(entry, next) && entry != prev && entry != next
    ensures var n := UnlinkImage(m, entry, prev, next);
      && Word(n, entry + NEXT_LINK) == 0 && Word(n, entry + PREV_LINK) == 0
      && Word(n, prev + NEXT_LINK) == next && Word(n, next + PREV_LINK) == prev
      && (prev != next ==> Word(n, next + NEXT_LINK) == Word(m, next + NEXT_LINK))
      && (prev != next ==> Word(n, prev + PREV_LINK) == Word(m, prev + PREV_LINK))
      && (forall a ::
            (0 <= a < |m| && !(entry <= a < entry + NODE_SIZE) && !(prev <= a < prev + NODE_SIZE)
             && !(next <= a < next + NODE_SIZE)) ==> n[a] == m[a])
  {
    hide PutWord, Word;
  }

  lemma WithoutApart(ns: seq<int>, k: nat)
    requires Apart(ns) && k < |ns|
    ensures Apart(Without(ns, k))
  {
    forall i, j | 0 <= i < j < |ns| - 1
      ensures Clear(Without(ns, k)[i], Without(ns, k)[j]) && Without(ns, k)[i] != Without(ns, k)[j]
    {
      ApartClear(ns, if i < k then i else i + 1, if j < k then j else j + 1);
    }
  }

  /** The neighbours in the ring without node `k`. */
  lemma WithoutNeighbours(ns: seq<int>, k: nat, i: nat)
    requires 0 < k < |ns| && i < |ns| - 1
    ensures var i' := if i < k then i else i + 1;
      && Without(ns, k)[i] == ns[i']
      && After(Without(ns, k), i) == (if i' == k - 1 then After(ns, k) else After(ns, i'))
      && Before(Without(ns, k), i) == (if i' == (if k + 1 < |ns| then k + 1 else 0) then ns[k - 1] else Before(ns, i'))
  {
  }

  /** A node of the ring after `list_del` of node `k`. */
  lemma UnlinkNode(m: Memory, ns: seq<int>, k: nat, i: nat)
    requires Ring(m, ns) && |m| <= ADDRESS_SPACE && 0 < k < |ns| && i < |ns| - 1
    requires 0 < ns[k] <= |m| - NODE_SIZE && 0 < Before(ns, k) <= |m| - NODE_SIZE && 0 < After(ns, k) <= |m| - NODE_SIZE
    ensures NodeAt(UnlinkImage(m, ns[k], Before(ns, k), After(ns, k)), Without(ns, k), i)
  {
    hide UnlinkImage, Word, Apart, Without;
    var j := if k + 1 < |ns| then k + 1 else 0;
    var n := UnlinkImage(m, ns[k], ns[k - 1], ns[j]);
    ApartClear(ns, k, k - 1);
    ApartClear(ns, k, j);
    ApartClear(ns, k - 1, j);
    UnlinkFields(m, ns[k], ns[k - 1], ns[j]);
    WithoutNeighbours(ns, k, i);
    var i' := if i < k then i else i + 1;
    assert NodeAt(m, ns, i');
    if i' != k - 1 && i' != j {
      OtherNode(ns, i', k);
      OtherNode(ns, i', k - 1);
      OtherNode(ns, i', j);
      NodeKept(m, n, ns, i', Without(ns, k), i);
    }
  }

  /** Deleting any node but the head leaves the ring of the others, the deleted node's links
      NULL. */
  lemma UnlinkRing(m: Memory, ns: seq<int>, k: nat)
    requires Ring(m, ns) && |m| <= ADDRESS_SPACE && 0 < k < |ns|
    ensures 0 < ns[k] <= |m| - NODE_SIZE && 0 < Before(ns, k) <= |m| - NODE_SIZE && 0 < After(ns, k) <= |m| - NODE_SIZE
    ensures var n := UnlinkImage(m, ns[k], Before(ns, k), After(ns, k));
      && Ring(n, Without(ns, k))
      && Word(n, ns[k] + NEXT_LINK) == 0 && Word(n, ns[k] + PREV_LINK) == 0
      && OnlyLinks(m, n, ns)
  {
    hide UnlinkImage, Word, Apart, Clear;
    var j := if k + 1 < |ns| then k + 1 else 0;
    assert NodeAt(m, ns, k) && NodeAt(m, ns, k - 1) && NodeAt(m, ns, j);
    var n := UnlinkImage(m, ns[k], ns[k - 1], ns[j]);
    ApartClear(ns, k, k - 1);
    ApartClear(ns, k, j);
    ApartClear(ns, k - 1, j);
    UnlinkFields(m, ns[k], ns[k - 1], ns[j]);
    WithoutApart(ns, k);
    forall i | 0 <= i < |ns| - 1
      ensures NodeAt(n, Without(ns, k), i)
    {
      UnlinkNode(m, ns, k, i);
    }
    forall a | 0 <= a < |m| && !InLinks(ns, a)
      ensures n[a] == m[a]
    {
      assert !(ns[k] <= a < ns[k] + NODE_SIZE) && !(ns[k - 1] <= a < ns[k - 1] + NODE_SIZE)
          && !(ns[j] <= a < ns[j] + NODE_SIZE);
    }
  }

  // ---------- the operations ----------

  method InitListHead(ram: array<byte>, list: word)
    requires Full(ram[..]) && 0 < list <= ADDRESS_SPACE - NODE_SIZE
    modifies ram
    ensures Full(ram[..]) && Ring(ram[..], [list])
    ensures OnlyLinks(old(ram[..]), ram[..], [list])
  {
    hide PutWord, Word;
    StoreWord(ram, list + NEXT_LINK, list);
    StoreWord(ram, list + PREV_LINK, list);
    assert NodeAt(ram[..], [list], 0);
    forall a | 0 <= a < ram.Length && !InLinks([list], a)
      ensures ram[..][a] == old(ram[..])[a]
    {
      assert !([list][0] <= a < [list][0] + NODE_SIZE);
    }
  }

  method ListAdd(ram: array<byte>, node: word, prev: word, next: word)
    requires Full(ram[..])
    requires node <= ADDRESS_SPACE - NODE_SIZE && prev <= ADDRESS_SPACE - NODE_SIZE && next <= ADDRESS_SPACE - NODE_SIZE
    modifies ram
    ensures ram[..] == LinkImage(old(ram[..]), node, prev, next)
  {
    hide PutWord;
    StoreWord(ram, next + PREV_LINK, node);
    StoreWord(ram, node + NEXT_LINK, next);
    StoreWord(ram, node + PREV_LINK, prev);
    StoreWord(ram, prev + NEXT_LINK, node);
  }

  method ListAddTail(ram: array<byte>, node: word, head: word, ghost ns: seq<int>)
    requires Full(ram[..]) && Ring(ram[..], ns) && head == ns[0]
    requires Apart(ns + [node]) && 0 < node <= ADDRESS_SPACE - NODE_SIZE
    modifies ram
    ensures Full(ram[..]) && Ring(ram[..], ns + [node])
    ensures OnlyLinks(old(ram[..]), ram[..], ns + [node])
  {
    hide Word, LinkImage, Ring, OnlyLinks;
    LinkRing(ram[..], ns, node);
    var last := LoadWord(ram, head + PREV_LINK);
    ListAdd(ram, node, last, head);
  }

  method ListDel(ram: array<byte>, entry: word, ghost ns: seq<int>, ghost k: nat)
    requires Full(ram[..]) && Ring(ram[..], ns) && 0 < k < |ns| && entry == ns[k]
    modifies ram
    ensures Full(ram[..]) && Ring(ram[..], Without(ns, k))
    ensures entry <= ADDRESS_SPACE - NODE_SIZE
    ensures Word(ram[..], entry + NEXT_LINK) == 0 && Word(ram[..], entry + PREV_LINK) == 0
    ensures OnlyLinks(old(ram[..]), ram[..], ns)
  {
    hide PutWord, Word, OnlyLinks;
    UnlinkRing(ram[..], ns, k);
    assert NodeAt(ram[..], ns, k);
    var prev := LoadWord(ram, entry + PREV_LINK);
    var next := LoadWord(ram, entry + NEXT_LINK);
    StoreWord(ram, next + PREV_LINK, prev);
    StoreWord(ram, prev + NEXT_LINK, next);
    StoreWord(ram, entry + NEXT_LINK, 0);
    StoreWord(ram, entry + PREV_LINK, 0);
  }

  method ListEmpty(ram: array<byte>, head: word, ghost ns: seq<int>) returns (empty: bool)
    requires Full(ram[..]) && Ring(ram[..], ns) && head == ns[0]
    ensures empty <==> ns == [head as int]
  {
    assert NodeAt(ram[..], ns, 0);
    assert |ns| > 1 ==> ns[0] + NODE_SIZE <= ns[1] || ns[1] + NODE_SIZE <= ns[0];
    var next := LoadWord(ram, head + NEXT_LINK);
    empty := next == head;
  }
}
