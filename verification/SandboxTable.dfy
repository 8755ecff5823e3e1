/** The sandbox table of kernel/src/sandbox/sandbox.c as a value, and what a history of
    creations, destructions, grants and revocations means for permissions. */
module SandboxTable {

  const SLOTS := 32
  const SANDBOX_MEMORY_SIZE := 4096
  const CAP_ACCESS_MEMORY: bv32 := 8
  const CAP_SYSCALL: bv32 := 16
  const CAP_IPC: bv32 := 32
  const SYS_IPC_SEND := 1

  datatype Slot = Slot(used: bool, id: int, capabilities: bv32, memory: int)

  function UsedSlots(t: seq<Slot>): nat {
    if |t| == 0 then 0 else UsedSlots(t[..|t| - 1]) + (if t[|t| - 1].used then 1 else 0)
  }

  /** The lowest unused slot from `i` on; |t| if there is none. */
  function LowestFree(t: seq<Slot>, i: nat): (r: nat)
    requires i <= |t|
    ensures i <= r <= |t|
    ensures forall j :: i <= j < r ==> t[j].used
    ensures r < |t| ==> !t[r].used
    decreases |t| - i
  {
    if i == |t| || !t[i].used then i else LowestFree(t, i + 1)
  }

  /** Pigeonhole: a table has no unused slot exactly when all of them are counted. */
  lemma {:induction false} FullTable(t: seq<Slot>)
    ensures UsedSlots(t) <= |t|
    ensures UsedSlots(t) == |t| <==> forall i :: 0 <= i < |t| ==> t[i].used
    decreases |t|
  {
    if |t| > 0 {
      var n := |t| - 1;
      FullTable(t[..n]);
      assert forall i :: 0 <= i < n ==> t[i] == t[..n][i];
    }
  }

  /** Taking or clearing one slot changes the count by one. */
  lemma {:induction false} UsedAfter(t: seq<Slot>, i: nat, s: Slot)
    requires i < |t|
    ensures UsedSlots(t[i := s]) == UsedSlots(t) - (if t[i].used then 1 else 0) + (if s.used then 1 else 0)
    decreases |t|
  {
    var n := |t| - 1;
    if i == n {
      assert t[i := s][..n] == t[..n];
    } else {
      assert t[i := s][..n] == t[..n][i := s];
      UsedAfter(t[..n], i, s);
    }
  }

  lemma {:induction false} NoneUsed(t: seq<Slot>)
    requires forall i :: 0 <= i < |t| ==> !t[i].used
    ensures UsedSlots(t) == 0
  {
    if |t| > 0 {
      NoneUsed(t[..|t| - 1]);
    }
  }

  // ---------- single capability bits ----------

  /** A mask with exactly one bit. */
  predicate IsBit(b: bv32) {
    b != 0 && b & (b - 1) == 0
  }

  function Both(x: bv32, y: bv32): bv32 {
    x & y
  }

  predicate Has(caps: bv32, b: bv32) {
    Both(caps, b) != 0
  }

  /** The mask test of `sandbox_check_permission`. */
  predicate Covers(held: bv32, required: bv32) {
    held & required == required
  }

  function With(held: bv32, caps: bv32): bv32 {
    held | caps
  }

  function Without(held: bv32, caps: bv32): bv32 {
    held & !caps
  }

  function Lowest(x: bv32): bv32 {
    x & (0 - x)
  }

  lemma LowestBit(x: bv32)
    requires x != 0
    ensures IsBit(Lowest(x)) && Lowest(x) & x == Lowest(x)
  {
  }

  /** The mask test, bit by bit. */
  lemma MaskIsBits(held: bv32, required: bv32)
    ensures Covers(held, required) <==> forall b {:trigger Has(required, b)} :: IsBit(b) && Has(required, b) ==>
        Has(held, b)
  {
    hide IsBit, Has, Covers;
    if Covers(held, required) {
      forall b | IsBit(b) && Has(required, b)
        ensures Has(held, b)
      {
        MaskGivesBit(held, required, b);
      }
    } else {
      MissingBit(held, required);
    }
  }

  lemma MaskGivesBit(held: bv32, required: bv32, b: bv32)
    requires Covers(held, required) && Has(required, b)
    ensures Has(held, b)
  {
  }

  lemma MissingBit(held: bv32, required: bv32)
    requires !Covers(held, required)
    ensures exists b :: IsBit(b) && Has(required, b) && !Has(held, b)
  {
    hide IsBit, Has, Lowest;
    NonZeroRest(held, required);
    LowestBit(required & !held);
    RestBit(held, required, Lowest(required & !held));
  }

  lemma NonZeroRest(held: bv32, required: bv32)
    requires !Covers(held, required)
    ensures required & !held != 0
  {
  }

  lemma RestBit(held: bv32, required: bv32, b: bv32)
    requires IsBit(b) && b & (required & !held) == b
    ensures Has(required, b) && !Has(held, b)
  {
  }

  lemma NoBit(b: bv32)
    ensures !Has(0, b)
  {
  }

  /** A mask has a single bit or it has not. */
  lemma SingleBit(x: bv32, b: bv32)
    requires IsBit(b)
    ensures Both(x, b) == 0 || Both(x, b) == b
    ensures b != 0
  {
  }

  lemma GrantBit(held: bv32, caps: bv32, b: bv32)
    requires IsBit(b)
    ensures Has(With(held, caps), b) <==> Has(held, b) || Has(caps, b)
  {
    hide IsBit, With, Both;
    OrDistributes(held, caps, b, Both(held, b), Both(caps, b), With(held, caps));
    OrZero(Both(held, b), Both(caps, b));
  }

  lemma OrDistributes(x: bv32, y: bv32, b: bv32, u: bv32, v: bv32, w: bv32)
    requires u == Both(x, b) && v == Both(y, b) && w == With(x, y)
    ensures Both(w, b) == With(u, v)
  {
  }

  lemma OrZero(x: bv32, y: bv32)
    ensures With(x, y) == 0 <==> x == 0 && y == 0
  {
  }

  lemma RevokeBit(held: bv32, caps: bv32, b: bv32)
    requires IsBit(b)
    ensures Has(Without(held, caps), b) <==> Has(held, b) && !Has(caps, b)
  {
    hide IsBit, Without, Both;
    SingleBit(held, b);
    SingleBit(caps, b);
    AndNotDistributes(held, caps, b, Both(held, b), Both(caps, b), Without(held, caps));
    AndNotZero(Both(held, b), Both(caps, b), b);
  }

  lemma AndNotDistributes(x: bv32, y: bv32, b: bv32, u: bv32, v: bv32, w: bv32)
    requires u == Both(x, b) && v == Both(y, b) && w == Without(x, y)
    ensures Both(w, b) == Without(u, v)
  {
  }

  lemma AndNotZero(x: bv32, y: bv32, b: bv32)
    requires b != 0 && (x == 0 || x == b) && (y == 0 || y == b)
    ensures Without(x, y) != 0 <==> x != 0 && y == 0
  {
  }

  // ---------- histories ----------

  /** What happened to the table. `Failed` is a creation that found a slot but no memory. */
  datatype SlotEvent =
    | Created(id: int, memory: int)
    | Failed(id: int)
    | Destroyed(id: int)
    | Granted(id: int, caps: bv32)
    | Revoked(id: int, caps: bv32)

  /** The events the code lets happen on table `t`: creations in unused slots, everything else
      on slots in use. The calls it turns down leave no event. */
  predicate Possible(t: seq<Slot>, e: SlotEvent) {
    0 <= e.id < |t| && (t[e.id].used <==> !(e.Created? || e.Failed?))
  }

  function After(t: seq<Slot>, e: SlotEvent): seq<Slot>
    requires Possible(t, e)
  {
    var s := t[e.id];
    match e
    case Created(i, m) => t[i := Slot(true, i, 0, m)]
    case Failed(i) => t[i := Slot(false, i, 0, 0)]
    case Destroyed(i) => t[i := s.(used := false)]
    case Granted(i, caps) => t[i := s.(capabilities := With(s.capabilities, caps))]
    case Revoked(i, caps) => t[i := s.(capabilities := Without(s.capabilities, caps))]
  }

  predicate History(t: seq<Slot>, es: seq<SlotEvent>)
    decreases |es|, 0
  {
    |es| == 0 || (History(t, es[..|es| - 1]) && Possible(Table(t, es[..|es| - 1]), es[|es| - 1]))
  }

  /** The table after a history that starts from `t`. */
  function Table(t: seq<Slot>, es: seq<SlotEvent>): (r: seq<Slot>)
    requires History(t, es)
    ensures |r| == |t|
    decreases |es|, 1
  {
    if |es| == 0 then t else After(Table(t, es[..|es| - 1]), es[|es| - 1])
  }

  /** Slot `id` has been created and not destroyed since. */
  predicate InUse(es: seq<SlotEvent>, id: int) {
    if |es| == 0 then false
    else
      var e := es[|es| - 1];
      if e.id == id && e.Created? then true
      else if e.id == id && e.Destroyed? then false
      else InUse(es[..|es| - 1], id)
  }

  /** The last grant or revocation of bit `b` since the latest creation of slot `id` was a
      grant. */
  predicate LastGranted(es: seq<SlotEvent>, id: int, b: bv32) {
    if |es| == 0 then false
    else
      var e := es[|es| - 1];
      if e.id != id then LastGranted(es[..|es| - 1], id, b)
      else match e
        case Created(_, _) => false
        case Failed(_) => false
        case Destroyed(_) => LastGranted(es[..|es| - 1], id, b)
        case Granted(_, caps) => Has(caps, b) || LastGranted(es[..|es| - 1], id, b)
        case Revoked(_, caps) => !Has(caps, b) && LastGranted(es[..|es| - 1], id, b)
  }

  predicate Fresh(t: seq<Slot>) {
    |t| == SLOTS && forall i :: 0 <= i < |t| ==> !t[i].used
  }

  lemma {:induction false} SlotHistory(t: seq<Slot>, es: seq<SlotEvent>, id: int, b: bv32)
    requires Fresh(t) && History(t, es) && 0 <= id < SLOTS && IsBit(b)
    ensures Table(t, es)[id].used == InUse(es, id)
    ensures Table(t, es)[id].used ==> (Has(Table(t, es)[id].capabilities, b) <==> LastGranted(es, id, b))
    decreases |es|
  {
    hide IsBit, Has, With, Without;
    if |es| > 0 {
      var front, e := es[..|es| - 1], es[|es| - 1];
      SlotHistory(t, front, id, b);
      if e.id == id {
        var held := Table(t, front)[id].capabilities;
        match e
        case Created(_, _) => NoBit(b);
        case Failed(_) =>
        case Destroyed(_) =>
        case Granted(_, caps) => GrantBit(held, caps, b);
        case Revoked(_, caps) => RevokeBit(held, caps, b);
      }
    }
  }

  /** The answer of `sandbox_check_permission` on a table. */
  predicate Permits(t: seq<Slot>, id: int, required: bv32) {
    0 <= id < |t| && t[id].used && Covers(t[id].capabilities, required)
  }

  lemma OneIsBit()
    ensures IsBit(1)
  {
  }

  /** After any history, a sandbox has the required capabilities exactly when it exists and
      each required bit was granted last, not revoked, since it was created. */
  lemma CapabilityHistory(t: seq<Slot>, es: seq<SlotEvent>, id: int, required: bv32)
    requires Fresh(t) && History(t, es) && 0 <= id < SLOTS
    ensures Permits(Table(t, es), id, required) <==>
            InUse(es, id) && forall b {:trigger Has(required, b)} :: IsBit(b) && Has(required, b) ==>
                LastGranted(es, id, b)
  {
    hide IsBit, Has, Covers, Table, History, InUse, LastGranted;
    var held := Table(t, es)[id].capabilities;
    MaskIsBits(held, required);
    OneIsBit();
    SlotHistory(t, es, id, 1);
    forall b | IsBit(b) && Has(required, b) && Table(t, es)[id].used
      ensures Has(held, b) <==> LastGranted(es, id, b)
    {
      SlotHistory(t, es, id, b);
    }
  }

  /** A slot that has just been created again has lost every right of its predecessor. */
  lemma ReusedSlotIsBare(t: seq<Slot>, es: seq<SlotEvent>, id: int, memory: int, required: bv32)
    requires Fresh(t) && History(t, es + [Created(id, memory)]) && 0 <= id < SLOTS
    ensures Permits(Table(t, es + [Created(id, memory)]), id, required) <==> required == 0
  {
    var all := es + [Created(id, memory)];
    assert all[..|all| - 1] == es;
    BareMask(required);
  }

  lemma BareMask(required: bv32)
    ensures Covers(0, required) <==> required == 0
  {
  }

  /** Creations minus destructions. */
  function Creations(es: seq<SlotEvent>): int {
    if |es| == 0 then 0
    else Creations(es[..|es| - 1]) + (if es[|es| - 1].Created? then 1 else if es[|es| - 1].Destroyed? then -1 else 0)
  }

  /** The table invariant over any history: the counter of used slots changes by one with
      every creation and destruction, and only with these. */
  lemma {:induction false} CountHistory(t: seq<Slot>, es: seq<SlotEvent>)
    requires Fresh(t) && History(t, es)
    ensures UsedSlots(Table(t, es)) == Creations(es)
    decreases |es|
  {
    if |es| == 0 {
      NoneUsed(t);
    } else {
      var front, e := es[..|es| - 1], es[|es| - 1];
      CountHistory(t, front);
      var u := Table(t, front);
      UsedAfter(u, e.id, Table(t, es)[e.id]);
      assert Table(t, es) == u[e.id := Table(t, es)[e.id]];
    }
  }
}
