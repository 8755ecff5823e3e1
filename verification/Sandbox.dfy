/** kernel/src/sandbox/sandbox.c: the table of sandboxes, each with a page of kernel heap and
    a mask of capabilities. */
module Sandbox {
  import opened Bytes
  import opened Blocks
  import opened HeapModel
  import opened HeapRuns
  import opened HeapImage
  import opened MemoryManager
  import opened SandboxTable

  /** Sandboxes in use own distinct live blocks of at least a page, and know their own id. */
  ghost predicate PagesOk(t: seq<Slot>, live: map<int, int>) {
    && (forall i :: 0 <= i < |t| && t[i].used ==>
        t[i].id == i && t[i].memory in live && live[t[i].memory] >= SANDBOX_MEMORY_SIZE)
    && (forall i, j :: 0 <= i < j < |t| && t[i].used && t[j].used ==> t[i].memory != t[j].memory)
  }

  /** Pages stay where they are as long as their blocks live. */
  lemma PagesKept(t: seq<Slot>, live: map<int, int>, after: map<int, int>)
    requires PagesOk(t, live)
    requires forall i :: 0 <= i < |t| && t[i].used ==> t[i].memory in after && after[t[i].memory] == live[t[i].memory]
    ensures PagesOk(t, after)
  {
  }

  /** The page of a destroyed sandbox is nobody else's. */
  lemma PageGone(t: seq<Slot>, live: map<int, int>, after: map<int, int>, i: nat)
    requires PagesOk(t, live) && i < |t| && t[i].used && after == live - {t[i].memory}
    ensures PagesOk(t[i := t[i].(used := false)], after)
  {
  }

  /** No two sandboxes share a byte. */
  lemma PagesDisjoint(t: seq<Slot>, lo: int, hi: int, live: map<int, int>, i: int, j: int, a: int)
    requires PagesOk(t, live) && Spread(lo, hi, live) && 0 <= i < j < |t| && t[i].used && t[j].used
    requires t[i].memory <= a < t[i].memory + SANDBOX_MEMORY_SIZE
    ensures !(t[j].memory <= a < t[j].memory + SANDBOX_MEMORY_SIZE)
  {
    assert t[i].memory < t[j].memory || t[j].memory < t[i].memory;
  }

  class Sandboxes {
    const mm: Mm
    const table: array<Slot>
    var count: int

    ghost predicate Valid()
      reads this, mm, mm.ram, table
    {
      && mm.Valid()
      && table.Length == SLOTS
      && count == UsedSlots(table[..])
      && PagesOk(table[..], mm.Live())
    }

    /** `sandbox_init`. */
    constructor (mm: Mm)
      requires mm.Valid()
      ensures Valid() && this.mm == mm && fresh(table) && Fresh(table[..])
    {
      this.mm := mm;
      table := new Slot[SLOTS](_ => Slot(false, 0, 0, 0));
      count := 0;
      new;
      var i := 0;
      while i < SLOTS
        invariant 0 <= i <= SLOTS && count == 0 && table.Length == SLOTS
        invariant forall j :: 0 <= j < i ==> !table[j].used
      {
        table[i] := table[i].(used := false);
        i := i + 1;
      }
      NoneUsed(table[..]);
    }

    /** `sandbox_create`: the lowest unused slot; -1 if the table is full or the heap has no
        page, and then no slot is taken. */
    method Create() returns (id: int)
      requires Valid()
      modifies this, table, mm, mm.ram
      ensures Valid() && table.Length == 32
      ensures old(count) == SLOTS ==> id == -1 && table[..] == old(table[..]) && mm.Model() == old(mm.Model())
      ensures old(count) < SLOTS ==>
                var i := LowestFree(old(table[..]), 0);
                var (h, p) := Alloc(old(mm.Model()), SANDBOX_MEMORY_SIZE);
                && i < SLOTS && mm.Model() == h
                && id == (if p == 0 then -1 else i)
                && table[..] == After(old(table[..]), if p == 0 then Failed(i) else Created(i, p))
      ensures id != -1 <==> (exists i :: 0 <= i < 32 && !old(table[..])[i].used) && HasRoom(old(mm.blocks), 4096)
      ensures id != -1 ==>
                && 0 <= id < 32 && !old(table[..])[id].used && (forall j :: 0 <= j < id ==> old(table[..])[j].used)
                && table[id].used && table[id].memory !in old(mm.Live())
      ensures forall i :: 0 <= i < 32 && table[i].used ==>
                table[i].memory in mm.Live() && mm.Live()[table[i].memory] >= 4096
      ensures old(count) < SLOTS ==> count == old(count) + (if id == -1 then 0 else 1)
      ensures mm.heapStart == old(mm.heapStart) && mm.heapEnd == old(mm.heapEnd)
      ensures Untouched(old(mm.ram[..]), mm.ram[..], mm.heapStart, mm.heapEnd, old(mm.Live()))
    {
      hide Inv, Headers, Tiles, UsedBlocks, Extents, Alloc, Untouched, Protected, UsedSlots, HasRoom;
      UntouchedSame(mm.ram[..], mm.heapStart, mm.heapEnd, mm.Live());
      ghost var t := table[..];
      FullTable(t);
      id := -1;
      if count >= SLOTS { return; }
      var i := 0;
      while i < SLOTS
        invariant 0 <= i <= SLOTS && id == -1
        invariant LowestFree(t, 0) == LowestFree(t, i) < SLOTS
      {
        if !table[i].used {
          id := Occupy(i);
          return;
        }
        i := i + 1;
      }
    }

    /** What `sandbox_create` does with the unused slot it has found: the slot is taken, and
        given back if the heap has no page. */
    method Occupy(i: int) returns (id: int)
      requires Valid() && 0 <= i < SLOTS && !table[i].used
      modifies this`count, table, mm, mm.ram
      ensures Valid()
      ensures var (h, p) := Alloc(old(mm.Model()), SANDBOX_MEMORY_SIZE);
        && mm.Model() == h && id == (if p == 0 then -1 else i)
        && table[..] == old(table[..])[i := if p == 0 then Slot(false, i, 0, 0) else Slot(true, i, 0, p)]
      ensures count == old(count) + (if id == -1 then 0 else 1)
      ensures id != -1 <==> HasRoom(old(mm.blocks), 4096)
      ensures id != -1 ==> table[id].memory !in old(mm.Live())
      ensures mm.heapStart == old(mm.heapStart) && mm.heapEnd == old(mm.heapEnd)
      ensures Untouched(old(mm.ram[..]), mm.ram[..], mm.heapStart, mm.heapEnd, old(mm.Live()))
    {
      hide Inv, Headers, Tiles, UsedBlocks, Extents, Alloc, Untouched, Protected, UsedSlots, HasRoom, GrantLaw,
           Align, Spread;
      mm.Layout();
      RoomFor(mm.Model(), SANDBOX_MEMORY_SIZE);
      ghost var t, live := table[..], mm.Live();
      table[i] := Slot(true, i, 0, table[i].memory);
      count := count + 1;
      var p := mm.Kmalloc(SANDBOX_MEMORY_SIZE);
      table[i] := table[i].(memory := p);
      if p == 0 {
        table[i] := table[i].(used := false);
        count := count - 1;
        assert table[..] == t[i := Slot(false, i, 0, 0)];
        UsedAfter(t, i, Slot(false, i, 0, 0));
        return -1;
      }
      assert table[..] == t[i := Slot(true, i, 0, p)];
      UsedAfter(t, i, Slot(true, i, 0, p));
      NewPage(t, live, mm.Live(), i, p);
      return i;
    }

    /** `sandbox_destroy`: 1 and the page released, or 0 and nothing changed. */
    method Destroy(id: int) returns (r: int)
      requires Valid()
      modifies this, table, mm, mm.ram
      ensures Valid()
      ensures var t := old(table[..]);
        if 0 <= id < SLOTS && t[id].used then
          && r == 1 && t[id].memory in old(mm.Live())
          && mm.Model() == Free(old(mm.Model()), t[id].memory)
          && table[..] == After(t, Destroyed(id)) && count == old(count) - 1
        else r == 0 && mm.Model() == old(mm.Model()) && table[..] == t && count == old(count)
      ensures mm.heapStart == old(mm.heapStart) && mm.heapEnd == old(mm.heapEnd)
      ensures Untouched(old(mm.ram[..]), mm.ram[..], mm.heapStart, mm.heapEnd, mm.Live())
    {
      hide Inv, Headers, Tiles, UsedBlocks, Extents, Free, Untouched, Protected, UsedSlots;
      UntouchedSame(mm.ram[..], mm.heapStart, mm.heapEnd, mm.Live());
      if id < 0 || id >= SLOTS || !table[id].used { return 0; }
      ghost var t, live := table[..], mm.Live();
      ghost var p := table[id].memory;
      mm.LiveIsValid(p);
      mm.Layout();
      FreeMeaning(mm.Model(), p);
      mm.Kfree(table[id].memory);
      table[id] := table[id].(used := false);
      count := count - 1;
      assert table[..] == t[id := t[id].(used := false)];
      UsedAfter(t, id, t[id].(used := false));
      PageGone(t, live, mm.Live(), id);
      r := 1;
    }

    /** `sandbox_grant_capability`. */
    method Grant(id: int, caps: bv32) returns (r: int)
      requires Valid()
      modifies table
      ensures Valid()
      ensures var t := old(table[..]);
        if 0 <= id < SLOTS && t[id].used then r == 1 && table[..] == After(t, Granted(id, caps))
        else r == 0 && table[..] == t
    {
      hide Inv, Headers;
      if id < 0 || id >= SLOTS || !table[id].used { return 0; }
      ghost var t := table[..];
      table[id] := table[id].(capabilities := With(table[id].capabilities, caps));
      assert table[..] == t[id := table[id]];
      UsedAfter(t, id, table[id]);
      r := 1;
    }

    /** `sandbox_revoke_capability`. */
    method Revoke(id: int, caps: bv32) returns (r: int)
      requires Valid()
      modifies table
      ensures Valid()
      ensures var t := old(table[..]);
        if 0 <= id < SLOTS && t[id].used then r == 1 && table[..] == After(t, Revoked(id, caps))
        else r == 0 && table[..] == t
    {
      hide Inv, Headers;
      if id < 0 || id >= SLOTS || !table[id].used { return 0; }
      ghost var t := table[..];
      table[id] := table[id].(capabilities := Without(table[id].capabilities, caps));
      assert table[..] == t[id := table[id]];
      UsedAfter(t, id, table[id]);
      r := 1;
    }

    method CheckPermission(id: int, required: bv32) returns (ok: bool)
      requires Valid()
      ensures ok == Permits(table[..], id, required)
    {
      if id < 0 || id >= SLOTS || !table[id].used { return false; }
      ok := Covers(table[id].capabilities, required);
    }

    /** `sandbox_alloc`: a heap block for a sandbox that may access memory. It is not recorded
        in the table. */
    method AllocFor(id: int, size: word) returns (p: word)
      requires Valid()
      modifies mm, mm.ram
      ensures Valid()
      ensures (mm.Model(), p as int)
          == if Permits(table[..], id, 0x08) then Alloc(old(mm.Model()), size) else (old(mm.Model()), 0)
      ensures p != 0 <==> Permits(table[..], id, 0x08) && size > 0 && HasRoom(old(mm.blocks), Align(size))
      ensures mm.heapStart == old(mm.heapStart) && mm.heapEnd == old(mm.heapEnd)
      ensures Untouched(old(mm.ram[..]), mm.ram[..], mm.heapStart, mm.heapEnd, old(mm.Live()))
    {
      hide Inv, Headers, Tiles, UsedBlocks, Extents, Alloc, Untouched, Protected, GrantLaw, HasRoom;
      UntouchedSame(mm.ram[..], mm.heapStart, mm.heapEnd, mm.Live());
      var ok := CheckPermission(id, CAP_ACCESS_MEMORY);
      if !ok { return 0; }
      p := mm.Kmalloc(size);
    }

    /** `sandbox_syscall`: 0 only for an IPC send by a sandbox that holds both rights. */
    method Syscall(id: int, number: int) returns (r: int)
      requires Valid()
      ensures r == 0 || r == -1
      ensures r == 0 <==>
          number == 1 && Permits(table[..], id, 0x10) && Permits(table[..], id, 0x20)
    {
      var ok := CheckPermission(id, CAP_SYSCALL);
      if !ok { return -1; }
      match number {
        case 1 =>
          var ipc := CheckPermission(id, CAP_IPC);
          if ipc { return 0; }
        case _ =>
      }
      return -1;
    }
  }

  lemma NewPage(t: seq<Slot>, live: map<int, int>, after: map<int, int>, i: int, p: int)
    requires PagesOk(t, live) && 0 <= i < |t| && !t[i].used
    requires p !in live && p in after && after == live[p := after[p]] && after[p] >= SANDBOX_MEMORY_SIZE
    ensures PagesOk(t[i := Slot(true, i, 0, p)], after)
  {
  }
}
