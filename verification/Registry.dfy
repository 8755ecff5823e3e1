/** kernel/src/interfaces/registry.c: named interfaces in a list of heap blocks, the newest
    first. A name is a C string of which the registry keeps 31 characters. */
module Registry {
  import opened Bytes
  import opened Blocks
  import opened HeapModel
  import opened HeapRuns
  import opened HeapImage
  import opened MemoryManager

  const NAME_SIZE := 32
  // offsets in struct interface_entry
  const INTERFACE := 32
  const NEXT_ENTRY := 36
  const ENTRY_SIZE := 40

  datatype Binding = Binding(name: seq<byte>, iface: word)

  // ---------- C strings ----------

  /** The characters before the first NUL. */
  function CStr(bs: seq<byte>): (s: seq<byte>)
    ensures |s| <= |bs|
  {
    if |bs| == 0 || bs[0] == 0 then [] else [bs[0]] + CStr(bs[1..])
  }

  /** The string `s` and its NUL lie at address `a`. */
  ghost predicate StrAt(m: Memory, a: int, s: seq<byte>) {
    0 <= a && a + |s| < |m| && m[a..a + |s|] == s && m[a + |s|] == 0 && 0 !in s
  }

  /** What the registry keeps of a name. */
  function CutName(s: seq<byte>): seq<byte> {
    if |s| < NAME_SIZE then s else s[..NAME_SIZE - 1]
  }

  lemma {:induction false} CStrPadded(s: seq<byte>, pad: seq<byte>)
    requires 0 !in s && |pad| > 0 && pad[0] == 0
    ensures CStr(s + pad) == s
    decreases |s|
  {
    if |s| == 0 {
      assert s + pad == pad;
    } else {
      assert (s + pad)[1..] == s[1..] + pad;
      CStrPadded(s[1..], pad);
    }
  }

  lemma {:induction false} CStrFound(bs: seq<byte>, k: nat)
    requires k < |bs| && bs[k] == 0
    ensures |CStr(bs)| <= k && bs[|CStr(bs)|] == 0 && bs[..|CStr(bs)|] == CStr(bs) && 0 !in CStr(bs)
    decreases |bs|
  {
    if bs[0] != 0 {
      CStrFound(bs[1..], k - 1);
    }
  }

  /** `strncpy(dest, src, n)` as ISO C 7.24.2.4 defines it: characters up to the NUL, then
      NULs up to `n`. */
  method StrNCpy(ram: array<byte>, dest: word, src: word, n: word, ghost s: seq<byte>)
    requires Full(ram[..]) && StrAt(ram[..], src, s) && dest + n <= ADDRESS_SPACE
    requires dest + n <= src || src + |s| < dest
    modifies ram
    ensures Full(ram[..])
    ensures forall a :: 0 <= a < ADDRESS_SPACE && !(dest <= a < dest + n) ==> ram[..][a] == old(ram[..])[a]
    ensures forall a :: dest <= a < dest + n ==> ram[..][a] == if a - dest < |s| then s[a - dest] else 0
  {
    var i := 0;
    while i < n && ram[src + i] != 0
      invariant 0 <= i <= n && i <= |s|
      invariant forall a :: 0 <= a < ram.Length && !(dest <= a < dest + n) ==> ram[a] == old(ram[a])
      invariant forall a :: dest <= a < dest + i ==> ram[a] == s[a - dest]
      invariant StrAt(ram[..], src, s)
    {
      assert ram[src + i] == ram[..][src..src + |s|][i] == s[i];
      ram[dest + i] := ram[src + i];
      assert ram[..][src..src + |s|] == s;
      i := i + 1;
    }
    CharAt(ram[..], src, s, i);
    while i < n
      invariant 0 <= i <= n && (i < |s| ==> i == n)
      invariant forall a :: 0 <= a < ram.Length && !(dest <= a < dest + n) ==> ram[a] == old(ram[a])
      invariant forall a :: dest <= a < dest + i ==> ram[a] == if a - dest < |s| then s[a - dest] else 0
    {
      ram[dest + i] := 0;
      i := i + 1;
    }
  }

  /** `strcmp(x, y) == 0`. */
  method StrEqual(ram: array<byte>, x: word, y: word, ghost s: seq<byte>, ghost t: seq<byte>) returns (eq: bool)
    requires Full(ram[..]) && StrAt(ram[..], x, s) && StrAt(ram[..], y, t)
    ensures eq <==> s == t
  {
    var i := 0;
    while ram[x + i] == ram[y + i] && ram[x + i] != 0
      invariant 0 <= i <= |s| && i <= |t| && s[..i] == t[..i]
      decreases |s| - i
    {
      CharAt(ram[..], x, s, i);
      CharAt(ram[..], y, t, i);
      i := i + 1;
    }
    CharAt(ram[..], x, s, i);
    CharAt(ram[..], y, t, i);
    eq := ram[x + i] == ram[y + i];
    assert s == s[..i] + s[i..] && t == t[..i] + t[i..];
  }

  lemma CharAt(m: Memory, a: int, s: seq<byte>, i: nat)
    requires StrAt(m, a, s) && i <= |s|
    ensures m[a + i] == (if i < |s| then s[i] else 0)
    ensures i < |s| ==> m[a + i] != 0
  {
    if i < |s| { assert m[a..a + |s|][i] == s[i]; }
  }

  // ---------- the list in memory ----------

  function EntryLink(es: seq<int>, k: nat): int
    requires k <= |es|
  {
    if k < |es| then es[k] else 0
  }

  ghost predicate EntryAt(m: Memory, live: map<int, int>, es: seq<int>, k: nat)
    requires k < |es|
  {
    && es[k] in live && 0 < es[k] && ENTRY_SIZE <= live[es[k]] && es[k] + live[es[k]] <= |m|
    && m[es[k] + NAME_SIZE - 1] == 0
    && Word(m, es[k] + INTERFACE) != 0
    && Word(m, es[k] + NEXT_ENTRY) == EntryLink(es, k + 1)
  }

  ghost predicate Chain(m: Memory, live: map<int, int>, es: seq<int>) {
    forall k {:trigger EntryAt(m, live, es, k)} :: 0 <= k < |es| ==> EntryAt(m, live, es, k)
  }

  function BindingAt(m: Memory, p: int): Binding {
    if 0 <= p <= |m| - ENTRY_SIZE then Binding(CStr(m[p..p + NAME_SIZE]), Word(m, p + INTERFACE)) else Binding([], 0)
  }

  function Bindings(m: Memory, es: seq<int>): (bs: seq<Binding>)
    ensures |bs| == |es|
    ensures forall k :: 0 <= k < |es| ==> bs[k] == BindingAt(m, es[k])
  {
    seq(|es|, k requires 0 <= k < |es| => BindingAt(m, es[k]))
  }

  /** The first binding of a name; 0 for none. */
  function Lookup(bs: seq<Binding>, name: seq<byte>): word {
    if |bs| == 0 then 0 else if bs[0].name == name then bs[0].iface else Lookup(bs[1..], name)
  }

  lemma EntryKept(m: Memory, n: Memory, live: map<int, int>, after: map<int, int>, es: seq<int>, k: nat)
    requires k < |es| && EntryAt(m, live, es, k) && |m| == |n|
    requires es[k] in after && after[es[k]] == live[es[k]]
    requires forall a :: es[k] <= a < es[k] + live[es[k]] ==> n[a] == m[a]
    ensures EntryAt(n, after, es, k) && BindingAt(n, es[k]) == BindingAt(m, es[k])
  {
    SameWord(m, n, es[k] + INTERFACE);
    SameWord(m, n, es[k] + NEXT_ENTRY);
    assert m[es[k]..es[k] + NAME_SIZE] == n[es[k]..es[k] + NAME_SIZE];
  }

  /** The registry survives whatever leaves its live blocks alone. */
  lemma ChainKept(m: Memory, n: Memory, live: map<int, int>, after: map<int, int>, es: seq<int>)
    requires Chain(m, live, es) && |m| == |n|
    requires forall p :: p in es && p in live ==> p in after && after[p] == live[p]
    requires forall p, a :: p in es && p in live && p <= a < p + live[p] && 0 <= a < |m| ==> n[a] == m[a]
    ensures Chain(n, after, es) && Bindings(n, es) == Bindings(m, es)
  {
    hide BindingAt;
    forall k | 0 <= k < |es|
      ensures EntryAt(n, after, es, k) && BindingAt(n, es[k]) == BindingAt(m, es[k])
    {
      assert EntryAt(m, live, es, k);
      assert es[k] in es;
      EntryKept(m, n, live, after, es, k);
    }
  }

  /** Putting a filled entry in front. */
  lemma ChainCons(m: Memory, live: map<int, int>, p: int, es: seq<int>)
    requires Chain(m, live, es) && p in live && 0 < p && ENTRY_SIZE <= live[p] && p + live[p] <= |m|
    requires m[p + NAME_SIZE - 1] == 0 && Word(m, p + INTERFACE) != 0 && Word(m, p + NEXT_ENTRY) == EntryLink(es, 0)
    ensures Chain(m, live, [p] + es)
    ensures Bindings(m, [p] + es) == [BindingAt(m, p)] + Bindings(m, es)
  {
    hide BindingAt, Word;
    var ps := [p] + es;
    forall k | 0 <= k < |ps|
      ensures EntryAt(m, live, ps, k)
    {
      if k > 0 { assert EntryAt(m, live, es, k - 1); }
    }
  }

  // ---------- last writer wins ----------

  /** The map a history of successful registrations stands for, oldest first. */
  function MapOf(rs: seq<Binding>): map<seq<byte>, word> {
    if |rs| == 0 then map[] else MapOf(rs[..|rs| - 1])[rs[|rs| - 1].name := rs[|rs| - 1].iface]
  }

  /** The list the same history leaves: newest first. */
  function Stack(rs: seq<Binding>): seq<Binding> {
    if |rs| == 0 then [] else [rs[|rs| - 1]] + Stack(rs[..|rs| - 1])
  }

  /** Looking a name up in the list is looking it up in the map: the latest registration of
      the name counts, and there is no answer for a name that has none. */
  lemma {:induction false} LastWriterWins(rs: seq<Binding>, name: seq<byte>)
    ensures Lookup(Stack(rs), name) == if name in MapOf(rs) then MapOf(rs)[name] else 0
    decreases |rs|
  {
    if |rs| > 0 {
      LastWriterWins(rs[..|rs| - 1], name);
      assert Stack(rs)[1..] == Stack(rs[..|rs| - 1]);
    }
  }

  ghost predicate Names(bs: seq<Binding>, name: seq<byte>) {
    exists k :: 0 <= k < |bs| && bs[k].name == name
  }

  lemma NamesCons(b: Binding, bs: seq<Binding>, name: seq<byte>)
    ensures Names([b] + bs, name) <==> b.name == name || Names(bs, name)
  {
    var cs := [b] + bs;
    if b.name == name { assert cs[0].name == name; }
    if k :| 0 <= k < |bs| && bs[k].name == name { assert cs[k + 1].name == name; }
  }

  /** The list has a binding of exactly the names the map knows. */
  lemma {:induction false} NamesOfStack(rs: seq<Binding>, name: seq<byte>)
    ensures name in MapOf(rs) <==> Names(Stack(rs), name)
    decreases |rs|
  {
    if |rs| > 0 {
      var front, last := rs[..|rs| - 1], rs[|rs| - 1];
      NamesOfStack(front, name);
      NamesCons(last, Stack(front), name);
    }
  }

  // ---------- long names ----------

  /** Every name in the registry has its NUL: it is at most 31 characters long. */
  lemma KeptNamesAreShort(m: Memory, live: map<int, int>, es: seq<int>)
    requires Chain(m, live, es)
    ensures forall k :: 0 <= k < |es| ==> |Bindings(m, es)[k].name| < 32
  {
    forall k | 0 <= k < |es|
      ensures |Bindings(m, es)[k].name| < 32
    {
      assert EntryAt(m, live, es, k);
      CStrFound(m[es[k]..es[k] + NAME_SIZE], NAME_SIZE - 1);
    }
  }

  ghost predicate ShortNames(bs: seq<Binding>) {
    forall k :: 0 <= k < |bs| ==> |bs[k].name| < 32
  }

  lemma {:induction false} LongNotFound(bs: seq<Binding>, name: seq<byte>)
    requires ShortNames(bs) && |name| >= 32
    ensures Lookup(bs, name) == 0
    decreases |bs|
  {
    if |bs| > 0 {
      assert |bs[0].name| < 32;
      LongNotFound(bs[1..], name);
    }
  }

  /** In a registry as the code keeps it, the interface just registered is found under its
      own name if and only if the name has less than 32 characters; a longer name is not found
      at all, but its first 31 characters are, also where they were bound before. */
  lemma LongNamesAreCut(bs: seq<Binding>, name: seq<byte>, iface: word)
    requires ShortNames(bs) && iface != 0
    ensures var after := [Binding(CutName(name), iface)] + bs;
      && (Lookup(after, name) == iface <==> |name| < 32)
      && (|name| >= 32 ==> Lookup(after, name) == 0 && Lookup(after, name[..31]) == iface)
  {
    var after := [Binding(CutName(name), iface)] + bs;
    assert after[1..] == bs;
    if |name| >= 32 { LongNotFound(after, name); }
  }

  /** A name that is too long by one: 32 times the letter A. */
  const LONG_NAME := Bytes.Fill(32, 65)

  lemma ThirtyTwoLetters(iface: word)
    requires iface != 0
    ensures Lookup([Binding(CutName(LONG_NAME), iface)], LONG_NAME) == 0
    ensures Lookup([Binding(CutName(LONG_NAME), iface)], Bytes.Fill(31, 65)) == iface
  {
    LongNamesAreCut([], LONG_NAME, iface);
    assert [Binding(CutName(LONG_NAME), iface)] + [] == [Binding(CutName(LONG_NAME), iface)];
    assert LONG_NAME[..31] == Bytes.Fill(31, 65);
  }

  // ---------- the operations ----------

  class Interfaces {
    const mm: Mm
    var first: word            // `interfaces`
    ghost var entries: seq<int>

    ghost predicate Valid()
      reads this, mm, mm.ram
    {
      && mm.Valid()
      && first == EntryLink(entries, 0)
      && Chain(mm.ram[..], mm.Live(), entries)
    }

    ghost function Contents(): seq<Binding>
      reads this, mm, mm.ram
    {
      Bindings(mm.ram[..], entries)
    }

    constructor (mm: Mm)
      requires mm.Valid()
      ensures Valid() && this.mm == mm && entries == [] && Contents() == []
    {
      this.mm := mm;
      first := 0;
      entries := [];
    }

    /** `interface_register`: a new entry in front, with the name cut to 31 characters. */
    method Register(name: word, iface: word, ghost s: seq<byte>)
      requires Valid()
      requires name != 0 && iface != 0 ==>
                 StrAt(mm.ram[..], name, s) &&
                 forall a :: name <= a <= name + |s| ==> Protected(mm.heapStart, mm.heapEnd, mm.Live(), a)
      modifies this, mm, mm.ram
      ensures Valid()
      ensures name == 0 || iface == 0 ==> mm.Model() == old(mm.Model()) && entries == old(entries)
      ensures name != 0 && iface != 0 ==>
                var (h, p) := Alloc(old(mm.Model()), ENTRY_SIZE);
                && mm.Model() == h && entries == (if p == 0 then old(entries) else [p] + old(entries))
                && Contents() == (if p == 0 then old(Contents()) else [Binding(CutName(s), iface)] + old(Contents()))
      ensures name != 0 && iface != 0 ==> (|entries| > |old(entries)| <==> HasRoom(old(mm.blocks), 40))
      ensures |entries| > |old(entries)| ==>
                var p := entries[0]; p !in old(mm.Live()) && p in mm.Live() && 40 <= mm.Live()[p] <= 64
      ensures name == 0 || iface == 0 ==> Contents() == old(Contents())
      ensures |entries| > |old(entries)| ==> Lookup(Contents(), s) == if |s| < 32 then iface else 0
      ensures mm.heapStart == old(mm.heapStart) && mm.heapEnd == old(mm.heapEnd)
      ensures Untouched(old(mm.ram[..]), mm.ram[..], mm.heapStart, mm.heapEnd, old(mm.Live()))
    {
      hide Inv, Headers, Tiles, UsedBlocks, Extents, Alloc, Untouched, Protected, Chain, Bindings, BindingAt, StrAt,
           Word, HasRoom, GrantLaw, Spread, CutName, Align;
      UntouchedSame(mm.ram[..], mm.heapStart, mm.heapEnd, mm.Live());
      if name == 0 || iface == 0 { return; }
      ghost var m0, live0, lo, hi := mm.ram[..], mm.Live(), mm.heapStart, mm.heapEnd;
      ChainLive(m0, live0, entries);
      mm.Layout();
      RoomFor(mm.Model(), ENTRY_SIZE);
      var p := mm.Kmalloc(ENTRY_SIZE);
      ghost var m1, live := mm.ram[..], mm.Live();
      mm.Layout();
      ChainUntouched(m0, m1, lo, hi, live0, live, live0, entries);
      if p == 0 { return; }
      StringStays(m0, m1, lo, hi, live0, live, p, name, s);
      Fill(p, name, iface, s);
      ghost var m3 := mm.ram[..];
      EntryFilled(m1, m3, mm.blocks, lo, hi, live0, entries, p);
      ChainCons(m3, live, p, entries);
      UntouchedChain(m0, m1, m3, lo, hi, live0);
      entries := [p as int] + entries;
      first := p;
      FoundIfShort(m0, live0, old(entries), s, iface);
    }

    /** The fields of a new entry. */
    method Fill(p: word, name: word, iface: word, ghost s: seq<byte>)
      requires Full(mm.ram[..]) && p + ENTRY_SIZE < ADDRESS_SPACE && StrAt(mm.ram[..], name, s)
      requires p + NAME_SIZE - 1 <= name || name + |s| < p
      modifies mm.ram
      ensures Full(mm.ram[..])
      ensures forall a :: 0 <= a < ADDRESS_SPACE && !(p <= a < p + ENTRY_SIZE) ==> mm.ram[..][a] == old(mm.ram[..])[a]
      ensures BindingAt(mm.ram[..], p) == Binding(CutName(s), iface)
      ensures mm.ram[..][p + NAME_SIZE - 1] == 0
      ensures Word(mm.ram[..], p + INTERFACE) == iface && Word(mm.ram[..], p + NEXT_ENTRY) == first
    {
      hide Word, PutWord, PutByte, CStr, CutName;
      StrNCpy(mm.ram, p, name, NAME_SIZE - 1, s);
      StoreByte(mm.ram, p + NAME_SIZE - 1, 0);
      StoreWord(mm.ram, p + INTERFACE, iface);
      StoreWord(mm.ram, p + NEXT_ENTRY, first);
      NameStored(mm.ram[..], p, s);
    }

    /** `interface_get`: the interface of the newest entry of that name, or NULL. */
    method Get(name: word, ghost s: seq<byte>) returns (iface: word)
      requires Valid() && (name != 0 ==> StrAt(mm.ram[..], name, s))
      ensures iface == if name == 0 then 0 else Lookup(Contents(), s)
    {
      hide Inv, Headers, Tiles, UsedBlocks, Extents, Word;
      if name == 0 { return 0; }
      var current: word := first;
      ghost var k := 0;
      ghost var bs := Contents();
      while current != 0
        invariant 0 <= k <= |entries| && current == EntryLink(entries, k)
        invariant Lookup(bs[k..], s) == Lookup(bs, s)
        decreases |entries| - k
      {
        assert EntryAt(mm.ram[..], mm.Live(), entries, k);
        NameRead(mm.ram[..], current);
        assert bs[k] == BindingAt(mm.ram[..], current);
        assert bs[k..][0] == bs[k] && bs[k..][1..] == bs[k + 1..];
        var eq := StrEqual(mm.ram, current, name, bs[k].name, s);
        if eq {
          iface := LoadWord(mm.ram, current + INTERFACE);
          return;
        }
        current := LoadWord(mm.ram, current + NEXT_ENTRY);
        k := k + 1;
      }
      assert k < |entries| ==> EntryAt(mm.ram[..], mm.Live(), entries, k);
      assert bs[k..] == [];
      return 0;
    }

    /** `interface_exists`. */
    method Exists(name: word, ghost s: seq<byte>) returns (found: bool)
      requires Valid() && (name != 0 ==> StrAt(mm.ram[..], name, s))
      ensures found <==> name != 0 && exists k :: 0 <= k < |Contents()| && Contents()[k].name == s
    {
      var iface := Get(name, s);
      found := iface != 0;
      InterfacesNonNull(mm.ram[..], mm.Live(), entries);
      LookupFinds(Contents(), s);
    }
  }

  /** The answer is NULL exactly when nothing is registered under the name. */
  lemma {:induction false} LookupFinds(bs: seq<Binding>, name: seq<byte>)
    requires forall k :: 0 <= k < |bs| ==> bs[k].iface != 0
    ensures Lookup(bs, name) != 0 <==> exists k :: 0 <= k < |bs| && bs[k].name == name
    decreases |bs|
  {
    if |bs| > 0 {
      LookupFinds(bs[1..], name);
      if k :| 0 <= k < |bs[1..]| && bs[1..][k].name == name {
        assert bs[k + 1].name == name;
      }
      if k :| 0 <= k < |bs| && bs[k].name == name && k > 0 {
        assert bs[1..][k - 1].name == name;
      }
    }
  }

  lemma InterfacesNonNull(m: Memory, live: map<int, int>, es: seq<int>)
    requires Chain(m, live, es)
    ensures forall k :: 0 <= k < |es| ==> Bindings(m, es)[k].iface != 0
  {
    forall k | 0 <= k < |es|
      ensures Bindings(m, es)[k].iface != 0
    {
      assert EntryAt(m, live, es, k);
    }
  }

  lemma FoundIfShort(m: Memory, live: map<int, int>, es: seq<int>, name: seq<byte>, iface: word)
    requires Chain(m, live, es) && iface != 0
    ensures Lookup([Binding(CutName(name), iface)] + Bindings(m, es), name) == if |name| < 32 then iface else 0
  {
    KeptNamesAreShort(m, live, es);
    LongNamesAreCut(Bindings(m, es), name, iface);
  }

  lemma ChainLive(m: Memory, live: map<int, int>, es: seq<int>)
    requires Chain(m, live, es)
    ensures forall p :: p in es ==> p in live && 0 < p && 0 <= live[p] && p + live[p] <= |m|
  {
    forall p | p in es
      ensures p in live && 0 < p && 0 <= live[p] && p + live[p] <= |m|
    {
      var k :| 0 <= k < |es| && es[k] == p;
      assert EntryAt(m, live, es, k);
    }
  }

  lemma ChainUntouched(m: Memory, n: Memory, lo: int, hi: int, live: map<int, int>, after: map<int, int>,
                       kept: map<int, int>, es: seq<int>)
    requires Chain(m, live, es) && Untouched(m, n, lo, hi, kept)
    requires forall p :: p in es && p in live ==> p in after && p in kept && after[p] == live[p] == kept[p]
    ensures Chain(n, after, es) && Bindings(n, es) == Bindings(m, es)
  {
    hide Chain, Bindings;
    ChainLive(m, live, es);
    forall p, a | p in es && p in live && p <= a < p + live[p] && 0 <= a < |m|
      ensures n[a] == m[a]
    {
      assert Protected(lo, hi, kept, a);
    }
    ChainKept(m, n, live, after, es);
  }

  /** The name the caller passes is intact after the grant and does not meet the new entry. */
  lemma StringStays(m: Memory, n: Memory, lo: int, hi: int, live: map<int, int>, after: map<int, int>, p: int,
                    name: int, s: seq<byte>)
    requires StrAt(m, name, s) && Untouched(m, n, lo, hi, live)
    requires forall a :: name <= a <= name + |s| ==> Protected(lo, hi, live, a)
    requires p !in live && p in after && after == live[p := after[p]] && Spread(lo, hi, after) && after[p] >= ENTRY_SIZE
    ensures StrAt(n, name, s) && (p + NAME_SIZE - 1 <= name || name + |s| < p)
  {
    assert n[name..name + |s|] == m[name..name + |s|] by {
      assert forall a :: name <= a <= name + |s| ==> n[a] == m[a];
    }
    if !(p + NAME_SIZE - 1 <= name || name + |s| < p) {
      GrantExposed(lo, hi, live, after, p, if name < p then p else name);
    }
  }

  lemma NameStored(m: Memory, p: int, s: seq<byte>)
    requires 0 <= p <= |m| - ENTRY_SIZE && 0 !in s
    requires forall a :: p <= a < p + NAME_SIZE - 1 ==> m[a] == if a - p < |s| then s[a - p] else 0
    requires m[p + NAME_SIZE - 1] == 0
    ensures CStr(m[p..p + NAME_SIZE]) == CutName(s)
  {
    var c := CutName(s);
    var bs := m[p..p + NAME_SIZE];
    forall k | 0 <= k < NAME_SIZE
      ensures bs[k] == if k < |c| then c[k] else 0
    {
      assert k < NAME_SIZE - 1 ==> m[p + k] == (if k < |s| then s[k] else 0);
      assert bs[k] == m[p + k];
    }
    assert bs == c + bs[|c|..];
    CStrPadded(c, bs[|c|..]);
  }

  lemma NameRead(m: Memory, p: int)
    requires 0 <= p <= |m| - ENTRY_SIZE && m[p + NAME_SIZE - 1] == 0
    ensures StrAt(m, p, BindingAt(m, p).name)
  {
    var bs := m[p..p + NAME_SIZE];
    CStrFound(bs, NAME_SIZE - 1);
    var s := CStr(bs);
    assert m[p..p + |s|] == bs[..|s|];
    assert m[p + |s|] == bs[|s|];
  }

  /** Filling the new entry leaves the older ones and everybody else alone. */
  lemma EntryFilled(m: Memory, n: Memory, bs: seq<Block>, lo: int, hi: int, live: map<int, int>, es: seq<int>, p: int)
    requires Headers(m, bs) && Tiles(bs, lo, hi) && Spread(lo, hi, Live(bs)) && |m| == |n|
    requires Chain(m, Live(bs), es) && p in Live(bs) && p !in live && Live(bs) == live[p := Live(bs)[p]]
    requires forall x :: x in es ==> x in live
    requires forall a :: 0 <= a < |m| && !(p <= a < p + Live(bs)[p]) ==> n[a] == m[a]
    ensures Headers(n, bs) && Chain(n, Live(bs), es) && Bindings(n, es) == Bindings(m, es)
        && Untouched(m, n, lo, hi, live)
  {
    hide Headers, Tiles, UsedBlocks, Extents, Chain, Bindings;
    PayloadWrite(m, n, bs, lo, hi, p);
    var after := Live(bs);
    forall a | 0 <= a < |m| && Protected(lo, hi, live, a)
      ensures n[a] == m[a]
    {
      if p <= a < p + after[p] { GrantExposed(lo, hi, live, after, p, a); }
    }
    ChainUntouched(m, n, lo, hi, after, after, live, es);
  }
}
