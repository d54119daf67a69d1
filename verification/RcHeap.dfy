/** Reference-counted byte buffers, the operations on them, and the counting invariant. */
module RcHeap {
  import opened BitStrings
  import opened Values

  type Loc = nat

  /** A runtime value as the interpreter holds it: byte payloads live in shared cells. */
  datatype Handle =
    | HUnit
    | HBool(truth: bool)
    | HInt(word: int)
    | HString(loc: Loc)
    | HBinary(loc: Loc)
    | HBits(loc: Loc, bitLength: nat)

  datatype Cell = Cell(bytes: seq<Byte>, count: nat)

  type Cells = map<Loc, Cell>
  type Slots = map<nat, Handle>

  /**
   Memory as a running function sees it: its registers and local slots, the
   bindings of the frames that called it, and the references in flight.
   */
  datatype Mem = Mem(cells: Cells, next: Loc, values: Slots, locals: Slots, callers: Slots, held: multiset<Loc>)

  predicate HasCell(h: Handle) {
    h.HString? || h.HBinary? || h.HBits?
  }

  predicate PointsTo(h: Handle, l: Loc) {
    HasCell(h) && h.loc == l
  }

  /** The references a handle holds. */
  function Locs(h: Handle): multiset<Loc> {
    if HasCell(h) then multiset{h.loc} else multiset{}
  }

  function BytesAt(cells: Cells, l: Loc): seq<Byte> {
    if l in cells then cells[l].bytes else []
  }

  /** The value a handle stands for. */
  function Denote(cells: Cells, h: Handle): Value {
    match h
    case HUnit => Unit
    case HBool(b) => Bool(b)
    case HInt(n) => Int(n)
    case HString(l) => String(BytesAt(cells, l))
    case HBinary(l) => Binary(BytesAt(cells, l))
    case HBits(l, n) => Bits(BytesAt(cells, l), n)
  }

  function DenoteAll(cells: Cells, m: Slots): map<nat, Value> {
    map id | id in m :: Denote(cells, m[id])
  }

  /** The handle may be read: its cell is allocated and, for bits, padded. */
  ghost predicate Live(cells: Cells, h: Handle) {
    && (HasCell(h) ==> h.loc in cells)
    && (h.HBits? ==> Padded(cells[h.loc].bytes, h.bitLength))
  }

  ghost predicate AllLive(cells: Cells, m: Slots) {
    forall id :: id in m ==> Live(cells, m[id])
  }

  /** The slots that refer to a cell. */
  ghost function Holders(m: Slots, l: Loc): set<nat> {
    set id | id in m && PointsTo(m[id], l)
  }

  ghost function Refs(m: Slots, l: Loc): nat {
    |Holders(m, l)|
  }

  /** Every reference there is to a cell. */
  ghost function References(m: Mem, l: Loc): nat {
    Refs(m.values, l) + Refs(m.locals, l) + Refs(m.callers, l) + m.held[l]
  }

  /** Every count is exact, no cell is kept without a reference, and no reference dangles. */
  ghost predicate Good(m: Mem) {
    && (forall l {:trigger References(m, l)} :: l in m.cells ==> m.cells[l].count == References(m, l))
    && (forall l :: l in m.cells ==> m.cells[l].count > 0 && l < m.next)
    && (forall l :: l in m.held ==> l in m.cells)
    && AllLive(m.cells, m.values) && AllLive(m.cells, m.locals) && AllLive(m.cells, m.callers)
  }

  /** What every binding stands for: the running frame's and its callers'. */
  datatype View = View(values: map<nat, Value>, locals: map<nat, Value>, callers: map<nat, Value>)

  function ViewOf(m: Mem): View {
    View(DenoteAll(m.cells, m.values), DenoteAll(m.cells, m.locals), DenoteAll(m.cells, m.callers))
  }

  // ----- operations -----

  /** One more reference to a cell, in flight. */
  function CountUp(m: Mem, l: Loc): Mem
    requires l in m.cells
  {
    m.(cells := m.cells[l := Cell(m.cells[l].bytes, m.cells[l].count + 1)], held := m.held + multiset{l})
  }

  /** One reference in flight less: the cell is freed with its last one. */
  function CountDown(m: Mem, l: Loc): Mem
    requires l in m.cells
  {
    if m.cells[l].count > 1 then
      m.(cells := m.cells[l := Cell(m.cells[l].bytes, m.cells[l].count - 1)], held := m.held - multiset{l})
    else
      m.(cells := m.cells - {l}, held := m.held - multiset{l})
  }

  /** Clone a handle. */
  function Shared(m: Mem, h: Handle): Mem {
    if HasCell(h) && h.loc in m.cells then CountUp(m, h.loc) else m
  }

  /** Drop a handle. */
  function Dropped(m: Mem, h: Handle): Mem {
    if HasCell(h) && h.loc in m.cells then CountDown(m, h.loc) else m
  }

  /** Move a register's value out of the frame. */
  function TakenOut(m: Mem, id: nat): Mem {
    if id in m.values then m.(values := m.values - {id}, held := m.held + Locs(m.values[id])) else m
  }

  /** Remove a register, dropping its value. */
  function Removed(m: Mem, id: nat): Mem {
    if id in m.values then Dropped(TakenOut(m, id), m.values[id]) else m
  }

  /** Bind a register to a handle in flight, dropping what it held. */
  function PutIn(m: Mem, id: nat, h: Handle): Mem {
    var r := Removed(m, id);
    r.(values := r.values[id := h], held := r.held - Locs(h))
  }

  /** The same memory with registers and local slots trading places. */
  function Swapped(m: Mem): Mem {
    m.(values := m.locals, locals := m.values)
  }

  /** Bind a local slot to a handle in flight, dropping what it held. */
  function PutLocalIn(m: Mem, local: nat, h: Handle): Mem {
    Swapped(PutIn(Swapped(m), local, h))
  }

  /** A fresh cell with one reference, in flight. */
  function Allocated(m: Mem, bytes: seq<Byte>): Mem {
    m.(cells := m.cells[m.next := Cell(bytes, 1)], next := m.next + 1, held := m.held + multiset{m.next})
  }

  /** A cell's buffer replaced where it stands. */
  function Grown(m: Mem, l: Loc, bytes: seq<Byte>): Mem {
    if l in m.cells then m.(cells := m.cells[l := Cell(bytes, m.cells[l].count)]) else m
  }

  lemma BindingsLive(m: Mem, id: nat)
    requires Good(m)
    ensures id in m.values ==> Live(m.cells, m.values[id])
    ensures id in m.locals ==> Live(m.cells, m.locals[id])
  {
  }

  // ----- counting slots -----

  lemma RefsTaken(m: Slots, id: nat, l: Loc)
    requires id in m
    ensures Refs(m, l) == Refs(m - {id}, l) + if PointsTo(m[id], l) then 1 else 0
  {
    if PointsTo(m[id], l) {
      assert Holders(m, l) == Holders(m - {id}, l) + {id};
    } else {
      assert Holders(m, l) == Holders(m - {id}, l);
    }
  }

  lemma RefsPut(m: Slots, id: nat, h: Handle, l: Loc)
    requires id !in m
    ensures Refs(m[id := h], l) == Refs(m, l) + if PointsTo(h, l) then 1 else 0
  {
    RefsTaken(m[id := h], id, l);
    assert m[id := h] - {id} == m;
  }

  lemma NoRefs(m: Slots, l: Loc)
    requires Refs(m, l) == 0
    ensures forall id :: id in m ==> !PointsTo(m[id], l)
  {
    assert Holders(m, l) == {};
    forall id | id in m ensures !PointsTo(m[id], l) {
      assert id !in Holders(m, l);
    }
  }

  lemma DeadCellUnreferenced(m: Slots, cells: Cells, l: Loc)
    requires l !in cells && AllLive(cells, m)
    ensures Refs(m, l) == 0
  {
    assert Holders(m, l) == {};
  }

  // ----- what each operation keeps -----

  /** Same bytes wherever both sides have a cell. */
  ghost predicate Agree(a: Cells, b: Cells) {
    forall l :: l in a && l in b ==> a[l].bytes == b[l].bytes
  }

  lemma DenoteKept(a: Cells, b: Cells, m: Slots)
    requires Agree(a, b) && AllLive(a, m) && AllLive(b, m)
    ensures DenoteAll(a, m) == DenoteAll(b, m)
  {
  }

  lemma ViewKept(a: Mem, b: Mem)
    requires Agree(a.cells, b.cells)
    requires a.values == b.values && a.locals == b.locals && a.callers == b.callers
    requires AllLive(a.cells, a.values) && AllLive(a.cells, a.locals) && AllLive(a.cells, a.callers)
    requires AllLive(b.cells, a.values) && AllLive(b.cells, a.locals) && AllLive(b.cells, a.callers)
    ensures ViewOf(a) == ViewOf(b)
  {
    DenoteKept(a.cells, b.cells, a.values);
    DenoteKept(a.cells, b.cells, a.locals);
    DenoteKept(a.cells, b.cells, a.callers);
  }

  /** `h` reads the same before and after. */
  ghost predicate SameRead(a: Mem, b: Mem, h: Handle) {
    Live(b.cells, h) && Denote(b.cells, h) == Denote(a.cells, h)
  }

  lemma LiveByBytes(a: Cells, b: Cells, m: Slots)
    requires Agree(a, b) && a.Keys <= b.Keys && AllLive(a, m)
    ensures AllLive(b, m)
  {
  }

  /** A count may change along with the references in flight. */
  lemma RecountedGood(m: Mem, l: Loc, n: nat, held: multiset<Loc>)
    requires Good(m) && l in m.cells && n > 0 && held[l] + m.cells[l].count == m.held[l] + n
    requires forall k :: k != l ==> held[k] == m.held[k]
    ensures Good(m.(cells := m.cells[l := Cell(m.cells[l].bytes, n)], held := held))
    ensures ViewOf(m.(cells := m.cells[l := Cell(m.cells[l].bytes, n)], held := held)) == ViewOf(m)
  {
    var r := m.(cells := m.cells[l := Cell(m.cells[l].bytes, n)], held := held);
    hide ViewOf, Denote, Refs;
    LiveByBytes(m.cells, r.cells, m.values);
    LiveByBytes(m.cells, r.cells, m.locals);
    LiveByBytes(m.cells, r.cells, m.callers);
    forall k | k in r.cells ensures r.cells[k].count == References(r, k) {
      assert m.cells[k].count == References(m, k);
    }
    forall k | k in held ensures k in r.cells {
      assert k == l || m.held[k] > 0;
    }
    ViewKept(m, r);
  }

  lemma SharedGood(m: Mem, h: Handle)
    requires Good(m) && Live(m.cells, h)
    ensures Good(Shared(m, h)) && ViewOf(Shared(m, h)) == ViewOf(m)
    ensures Shared(m, h).held == m.held + Locs(h)
  {
    if HasCell(h) {
      RecountedGood(m, h.loc, m.cells[h.loc].count + 1, m.held + multiset{h.loc});
    }
  }

  lemma SharedReads(m: Mem, h: Handle, k: Handle)
    requires Live(m.cells, k)
    ensures SameRead(m, Shared(m, h), k)
  {
  }

  /** A count of one for a reference in flight means no binding can see the cell. */
  lemma UniqueIsUnseen(m: Mem, l: Loc)
    requires Good(m) && l in m.held && m.cells[l].count == 1
    ensures m.held[l] == 1
    ensures forall id :: id in m.values ==> !PointsTo(m.values[id], l)
    ensures forall id :: id in m.locals ==> !PointsTo(m.locals[id], l)
    ensures forall id :: id in m.callers ==> !PointsTo(m.callers[id], l)
  {
    assert m.cells[l].count == References(m, l);
    NoRefs(m.values, l);
    NoRefs(m.locals, l);
    NoRefs(m.callers, l);
  }

  lemma StillLive(m: Slots, cells: Cells, l: Loc)
    requires AllLive(cells, m) && forall id :: id in m ==> !PointsTo(m[id], l)
    ensures AllLive(cells - {l}, m)
    ensures forall bytes, n :: AllLive(cells[l := Cell(bytes, n)], m)
  {
  }

  lemma FreedGood(m: Mem, l: Loc)
    requires Good(m) && l in m.held && m.cells[l].count == 1
    ensures Good(m.(cells := m.cells - {l}, held := m.held - multiset{l}))
    ensures ViewOf(m.(cells := m.cells - {l}, held := m.held - multiset{l})) == ViewOf(m)
  {
    UniqueIsUnseen(m, l);
    StillLive(m.values, m.cells, l);
    StillLive(m.locals, m.cells, l);
    StillLive(m.callers, m.cells, l);
    assert (m.held - multiset{l})[l] == 0;
    var r := m.(cells := m.cells - {l}, held := m.held - multiset{l});
    forall k | k in r.cells ensures r.cells[k].count == References(r, k) {
      assert m.cells[k].count == References(m, k);
    }
    ViewKept(m, r);
  }

  lemma CountDownGood(m: Mem, l: Loc)
    requires Good(m) && l in m.held
    ensures l in m.cells && Good(CountDown(m, l)) && ViewOf(CountDown(m, l)) == ViewOf(m)
  {
    if m.cells[l].count == 1 {
      FreedGood(m, l);
    } else {
      RecountedGood(m, l, m.cells[l].count - 1, m.held - multiset{l});
    }
  }

  lemma DroppedGood(m: Mem, h: Handle)
    requires Good(m) && Live(m.cells, h) && Locs(h) <= m.held
    ensures Good(Dropped(m, h)) && ViewOf(Dropped(m, h)) == ViewOf(m)
    ensures Dropped(m, h).held == m.held - Locs(h)
  {
    if HasCell(h) {
      assert Locs(h)[h.loc] == 1;
      CountDownGood(m, h.loc);
    }
  }

  lemma HeldTwice(m: Mem, l: Loc)
    requires Good(m) && l in m.cells && m.held[l] >= 2
    ensures m.cells[l].count > 1
  {
    assert m.cells[l].count == References(m, l);
  }

  lemma CountDownReads(m: Mem, l: Loc, k: Handle)
    requires l in m.cells && Live(m.cells, k) && (PointsTo(k, l) ==> m.cells[l].count > 1)
    ensures SameRead(m, CountDown(m, l), k)
  {
  }

  /** Dropping one handle does not disturb another one in flight. */
  lemma DroppedReads(m: Mem, h: Handle, k: Handle)
    requires Good(m) && Live(m.cells, h) && Live(m.cells, k) && Locs(h) + Locs(k) <= m.held
    ensures SameRead(m, Dropped(m, h), k)
  {
    if HasCell(h) {
      if PointsTo(k, h.loc) {
        assert (Locs(h) + Locs(k))[h.loc] == 2;
        HeldTwice(m, h.loc);
      }
      CountDownReads(m, h.loc, k);
    }
  }

  lemma TakenOutGood(m: Mem, id: nat)
    requires Good(m) && id in m.values
    ensures Good(TakenOut(m, id))
    ensures ViewOf(TakenOut(m, id)) == ViewOf(m).(values := ViewOf(m).values - {id})
  {
    var t := TakenOut(m, id);
    forall l | l in t.cells ensures t.cells[l].count == References(t, l) {
      assert m.cells[l].count == References(m, l);
      RefsTaken(m.values, id, l);
    }
    DenoteTaken(m.cells, m.values, id);
  }

  lemma DenoteTaken(cells: Cells, m: Slots, id: nat)
    ensures DenoteAll(cells, m - {id}) == DenoteAll(cells, m) - {id}
  {
  }

  lemma DenotePut(cells: Cells, m: Slots, id: nat, h: Handle)
    ensures DenoteAll(cells, m[id := h]) == DenoteAll(cells, m)[id := Denote(cells, h)]
  {
  }

  lemma RemovedGood(m: Mem, id: nat)
    requires Good(m)
    ensures Good(Removed(m, id)) && Removed(m, id).held == m.held
    ensures ViewOf(Removed(m, id)) == ViewOf(m).(values := ViewOf(m).values - {id})
    ensures id !in Removed(m, id).values
  {
    if id in m.values {
      var h := m.values[id];
      TakenOutGood(m, id);
      DroppedGood(TakenOut(m, id), h);
      assert m.held + Locs(h) - Locs(h) == m.held;
    } else {
      assert ViewOf(m).values - {id} == ViewOf(m).values;
    }
  }

  lemma RemovedReads(m: Mem, id: nat, k: Handle)
    requires Good(m) && Live(m.cells, k) && Locs(k) <= m.held
    ensures SameRead(m, Removed(m, id), k)
  {
    if id in m.values {
      TakenOutGood(m, id);
      DroppedReads(TakenOut(m, id), m.values[id], k);
    }
  }

  lemma BoundGood(m: Mem, id: nat, h: Handle)
    requires Good(m) && Live(m.cells, h) && Locs(h) <= m.held && id !in m.values
    ensures var b := m.(values := m.values[id := h], held := m.held - Locs(h));
            Good(b) && ViewOf(b) == ViewOf(m).(values := ViewOf(m).values[id := Denote(m.cells, h)])
  {
    var b := m.(values := m.values[id := h], held := m.held - Locs(h));
    forall l | l in b.cells ensures b.cells[l].count == References(b, l) {
      assert m.cells[l].count == References(m, l);
      RefsPut(m.values, id, h, l);
    }
    DenotePut(m.cells, m.values, id, h);
  }

  lemma PutInGood(m: Mem, id: nat, h: Handle)
    requires Good(m) && Live(m.cells, h) && Locs(h) <= m.held
    ensures Good(PutIn(m, id, h)) && PutIn(m, id, h).held == m.held - Locs(h)
    ensures ViewOf(PutIn(m, id, h)) == ViewOf(m).(values := ViewOf(m).values[id := Denote(m.cells, h)])
  {
    hide Good, ViewOf, Live, Removed, Denote;
    RemovedGood(m, id);
    RemovedReads(m, id, h);
    BoundGood(Removed(m, id), id, h);
    assert (ViewOf(m).values - {id})[id := Denote(m.cells, h)] == ViewOf(m).values[id := Denote(m.cells, h)];
  }

  lemma PutInReads(m: Mem, id: nat, h: Handle, k: Handle)
    requires Good(m) && Live(m.cells, k) && Locs(k) <= m.held
    ensures SameRead(m, PutIn(m, id, h), k)
  {
    RemovedReads(m, id, k);
  }

  lemma SwappedGood(m: Mem)
    requires Good(m)
    ensures Good(Swapped(m))
    ensures ViewOf(Swapped(m)) == ViewOf(m).(values := ViewOf(m).locals, locals := ViewOf(m).values)
  {
    forall l | l in m.cells ensures m.cells[l].count == References(Swapped(m), l) {
      assert m.cells[l].count == References(m, l);
    }
  }

  lemma PutLocalInGood(m: Mem, local: nat, h: Handle)
    requires Good(m) && Live(m.cells, h) && Locs(h) <= m.held
    ensures Good(PutLocalIn(m, local, h)) && PutLocalIn(m, local, h).held == m.held - Locs(h)
    ensures ViewOf(PutLocalIn(m, local, h)) == ViewOf(m).(locals := ViewOf(m).locals[local := Denote(m.cells, h)])
  {
    SwappedGood(m);
    PutInGood(Swapped(m), local, h);
    SwappedGood(PutIn(Swapped(m), local, h));
  }

  lemma AllocatedGood(m: Mem, bytes: seq<Byte>)
    requires Good(m)
    ensures Good(Allocated(m, bytes)) && ViewOf(Allocated(m, bytes)) == ViewOf(m)
    ensures BytesAt(Allocated(m, bytes).cells, m.next) == bytes
  {
    var a, l := Allocated(m, bytes), m.next;
    DeadCellUnreferenced(m.values, m.cells, l);
    DeadCellUnreferenced(m.locals, m.cells, l);
    DeadCellUnreferenced(m.callers, m.cells, l);
    assert m.held[l] == 0;
    LiveByBytes(m.cells, a.cells, m.values);
    LiveByBytes(m.cells, a.cells, m.locals);
    LiveByBytes(m.cells, a.cells, m.callers);
    forall k | k in a.cells ensures a.cells[k].count == References(a, k) {
      if k != l {
        assert m.cells[k].count == References(m, k);
      }
    }
    ViewKept(m, a);
  }

  lemma AllocatedReads(m: Mem, bytes: seq<Byte>, k: Handle)
    requires Good(m) && Live(m.cells, k)
    ensures SameRead(m, Allocated(m, bytes), k)
  {
  }

  lemma UnseenDenotes(cells: Cells, m: Slots, l: Loc, c: Cell)
    requires forall id :: id in m ==> !PointsTo(m[id], l)
    ensures DenoteAll(cells[l := c], m) == DenoteAll(cells, m)
  {
  }

  /** Growing a cell with a single reference in flight changes no binding anywhere. */
  lemma GrownInvisible(m: Mem, l: Loc, bytes: seq<Byte>)
    requires Good(m) && l in m.held && m.cells[l].count == 1
    ensures Good(Grown(m, l, bytes)) && ViewOf(Grown(m, l, bytes)) == ViewOf(m)
    ensures BytesAt(Grown(m, l, bytes).cells, l) == bytes
  {
    var g := Grown(m, l, bytes);
    UniqueIsUnseen(m, l);
    StillLive(m.values, m.cells, l);
    StillLive(m.locals, m.cells, l);
    StillLive(m.callers, m.cells, l);
    forall k | k in g.cells ensures g.cells[k].count == References(g, k) {
      assert m.cells[k].count == References(m, k);
    }
    UnseenDenotes(m.cells, m.values, l, Cell(bytes, 1));
    UnseenDenotes(m.cells, m.locals, l, Cell(bytes, 1));
    UnseenDenotes(m.cells, m.callers, l, Cell(bytes, 1));
  }

  lemma GrownReads(m: Mem, l: Loc, bytes: seq<Byte>, k: Handle)
    requires Live(m.cells, k) && !PointsTo(k, l)
    ensures SameRead(m, Grown(m, l, bytes), k)
  {
  }
}
