/**
 The interpreter over reference-counted buffers, as a function of its memory:
 registers are moved out at consuming sites, a buffer with one reference is
 extended in place, and dead registers are dropped first to make it unique.
 */
module RcMachine {
  import opened BitStrings
  import opened Values
  import opened IntOps
  import opened Program
  import opened PureMachine
  import opened RcHeap
  import opened Wrappers

  /** A handle in flight, in the memory it was made in. */
  datatype Made = Made(mem: Mem, handle: Handle)

  /** The running frame as plain values. */
  function FrameOf(m: Mem): Frame {
    Frame(ViewOf(m).values, ViewOf(m).locals)
  }

  /** The made handle is in flight, stands for `v`, and nothing else has changed. */
  ghost predicate Makes(before: Mem, made: Made, v: Value) {
    && Good(made.mem) && ViewOf(made.mem) == ViewOf(before)
    && Live(made.mem.cells, made.handle) && Denote(made.mem.cells, made.handle) == v
    && made.mem.held == before.held + Locs(made.handle)
  }

  // ----- making values -----

  function Scalar(v: Value): Handle {
    match v
    case Bool(b) => HBool(b)
    case Int(n) => HInt(n)
    case _ => HUnit
  }

  function Materialize(m: Mem, v: Value): Made {
    match v
    case String(bytes) => Made(Allocated(m, bytes), HString(m.next))
    case Binary(bytes) => Made(Allocated(m, bytes), HBinary(m.next))
    case Bits(bytes, n) => Made(Allocated(m, bytes), HBits(m.next, n))
    case _ => Made(m, Scalar(v))
  }

  lemma AllocatedMakes(m: Mem, bytes: seq<Byte>, h: Handle)
    requires Good(m) && HasCell(h) && h.loc == m.next && (h.HBits? ==> Padded(bytes, h.bitLength))
    ensures Makes(m, Made(Allocated(m, bytes), h), Denote(Allocated(m, bytes).cells, h))
    ensures BytesAt(Allocated(m, bytes).cells, h.loc) == bytes
  {
    AllocatedGood(m, bytes);
  }

  lemma MaterializeMakes(m: Mem, v: Value)
    requires Good(m) && Canonical(v)
    ensures Makes(m, Materialize(m, v), v)
  {
    hide Makes, Good, Padded, Allocated;
    match v
    case String(bytes) => AllocatedMakes(m, bytes, HString(m.next));
    case Binary(bytes) => AllocatedMakes(m, bytes, HBinary(m.next));
    case Bits(bytes, n) => AllocatedMakes(m, bytes, HBits(m.next, n));
    case _ => ScalarMakes(m, v);
  }

  lemma ScalarMakes(m: Mem, v: Value)
    requires Good(m) && (v.Unit? || v.Bool? || v.Int?)
    ensures Makes(m, Made(m, Scalar(v)), v)
  {
    assert m.held + multiset{} == m.held;
  }

  lemma MaterializeReads(m: Mem, v: Value, k: Handle)
    requires Good(m) && Live(m.cells, k)
    ensures SameRead(m, Materialize(m, v).mem, k)
  {
    if v.String? || v.Binary? || v.Bits? {
      AllocatedReads(m, v.bytes, k);
    }
  }

  /** Build the concatenation as a fresh value. */
  function ConcatFresh(m: Mem, kind: ConcatKind, left: Handle, right: Handle): Result<Made, RuntimeError> {
    var joined := Concat(kind, Denote(m.cells, left), Denote(m.cells, right));
    if joined.Err? then Err(joined.error) else Ok(Materialize(m, joined.value))
  }

  lemma JoinedIsCanonical(kind: ConcatKind, left: Value, right: Value)
    requires Canonical(left) && Canonical(right) && Concat(kind, left, right).Ok?
    ensures Canonical(Concat(kind, left, right).value)
  {
    if kind.BitsKind? {
      JoinBitsCanonical(left.bytes, left.bitLength, right.bytes, right.bitLength);
    }
  }

  lemma LiveIsCanonical(cells: Cells, h: Handle)
    requires Live(cells, h)
    ensures Canonical(Denote(cells, h))
  {
  }

  lemma ConcatFreshMakes(m: Mem, kind: ConcatKind, left: Handle, right: Handle)
    requires Good(m) && Live(m.cells, left) && Live(m.cells, right)
    requires ConcatFresh(m, kind, left, right).Ok?
    ensures Makes(m, ConcatFresh(m, kind, left, right).value,
            Concat(kind, Denote(m.cells, left), Denote(m.cells, right)).value)
  {
    LiveIsCanonical(m.cells, left);
    LiveIsCanonical(m.cells, right);
    JoinedIsCanonical(kind, Denote(m.cells, left), Denote(m.cells, right));
    MaterializeMakes(m, Concat(kind, Denote(m.cells, left), Denote(m.cells, right)).value);
  }

  // ----- appending -----

  /** Both payloads are strings, or both are binaries. */
  predicate SameByteKind(left: Handle, right: Handle) {
    (left.HString? && right.HString?) || (left.HBinary? && right.HBinary?)
  }

  /** The uniqueness gate: the left buffer has no reference but the one in flight. */
  predicate Extendable(m: Mem, left: Handle, right: Handle) {
    SameByteKind(left, right) && left.loc in m.cells && m.cells[left.loc].count == 1
  }

  /** Extend the left buffer in place when it is unique, otherwise copy. */
  function Consume(m: Mem, kind: ConcatKind, left: Handle, right: Handle): Result<Made, RuntimeError> {
    if Extendable(m, left, right) then
      Ok(Made(Grown(m, left.loc, BytesAt(m.cells, left.loc) + BytesAt(m.cells, right.loc)), left))
    else
      var made := ConcatFresh(m, kind, left, right);
      if made.Err? then Err(made.error) else Ok(Made(Dropped(made.value.mem, left), made.value.handle))
  }

  /** What extending in place computes, whatever kind the instruction names. */
  function Extension(left: Value, right: Value): Value {
    if left.String? && right.String? then String(left.bytes + right.bytes)
    else if left.Binary? && right.Binary? then Binary(left.bytes + right.bytes)
    else Unit
  }

  /** A consumed left operand in flight has been turned into the result. */
  ghost predicate Consumes(before: Mem, left: Handle, right: Handle, made: Made, v: Value) {
    && Good(made.mem) && ViewOf(made.mem) == ViewOf(before)
    && Live(made.mem.cells, made.handle) && Denote(made.mem.cells, made.handle) == v
    && made.mem.held == before.held - Locs(left) + Locs(made.handle)
    && SameRead(before, made.mem, right)
  }

  lemma UniqueNotAliased(m: Mem, left: Handle, right: Handle)
    requires Good(m) && HasCell(left) && left.loc in m.cells && m.cells[left.loc].count == 1
    requires Locs(left) + Locs(right) <= m.held
    ensures left.loc in m.held && !PointsTo(right, left.loc)
  {
    var both := Locs(left) + Locs(right);
    assert 1 <= both[left.loc] <= m.held[left.loc];
    UniqueIsUnseen(m, left.loc);
  }

  lemma ExtendConsumes(m: Mem, kind: ConcatKind, left: Handle, right: Handle)
    requires Good(m) && Live(m.cells, left) && Live(m.cells, right) && Locs(left) + Locs(right) <= m.held
    requires Extendable(m, left, right)
    ensures Consumes(m, left, right, Consume(m, kind, left, right).value,
            Extension(Denote(m.cells, left), Denote(m.cells, right)))
  {
    UniqueNotAliased(m, left, right);
    var bytes := BytesAt(m.cells, left.loc) + BytesAt(m.cells, right.loc);
    GrownInvisible(m, left.loc, bytes);
    GrownReads(m, left.loc, bytes, right);
    assert m.held - Locs(left) + Locs(left) == m.held;
  }

  lemma HeldShift(h: multiset<Loc>, a: multiset<Loc>, b: multiset<Loc>, c: multiset<Loc>)
    requires a + b <= h
    ensures a + b <= h + c && a + c <= h + c && a <= h + c
    ensures h + c - a == h - a + c
  {
  }

  /** Dropping the operand once the result is made. */
  lemma OperandDropped(before: Mem, made: Made, v: Value, left: Handle, right: Handle)
    requires Makes(before, made, v) && Locs(left) + Locs(right) <= before.held
    requires SameRead(before, made.mem, left) && SameRead(before, made.mem, right)
    ensures Consumes(before, left, right, Made(Dropped(made.mem, left), made.handle), v)
  {
    HeldShift(before.held, Locs(left), Locs(right), Locs(made.handle));
    DroppedGood(made.mem, left);
    DroppedReads(made.mem, left, made.handle);
    DroppedReads(made.mem, left, right);
  }

  lemma CopyConsumes(m: Mem, kind: ConcatKind, left: Handle, right: Handle)
    requires Good(m) && Live(m.cells, left) && Live(m.cells, right) && Locs(left) + Locs(right) <= m.held
    requires !Extendable(m, left, right) && Concat(kind, Denote(m.cells, left), Denote(m.cells, right)).Ok?
    ensures Consumes(m, left, right, Consume(m, kind, left, right).value,
            Concat(kind, Denote(m.cells, left), Denote(m.cells, right)).value)
  {
    ConcatFreshMakes(m, kind, left, right);
    var joined := Concat(kind, Denote(m.cells, left), Denote(m.cells, right)).value;
    MaterializeReads(m, joined, left);
    MaterializeReads(m, joined, right);
    OperandDropped(m, Materialize(m, joined), joined, left, right);
  }

  // ----- one instruction -----

  /** Bind a made value to a register. */
  function Bound(made: Made, dest: ValueId): Mem {
    PutIn(made.mem, dest, made.handle)
  }

  /** Both operands in flight: the right one shared, the left one moved out of its register. */
  function InFlight(m: Mem, lhs: ValueId, rhs: ValueId): Mem
    requires rhs in m.values
  {
    TakenOut(Shared(m, m.values[rhs]), lhs)
  }

  function AppendMoving(m: Mem, dest: ValueId, kind: ConcatKind, lhs: ValueId, rhs: ValueId): Result<Mem, RuntimeError>
    requires lhs in m.values && rhs in m.values
  {
    var right := m.values[rhs];
    var left := m.values[lhs];
    var made := Consume(InFlight(m, lhs, rhs), kind, left, right);
    if made.Err? then Err(made.error)
    else Ok(Bound(Made(Dropped(made.value.mem, right), made.value.handle), dest))
  }

  function AppendCopying(m: Mem, dest: ValueId, kind: ConcatKind, lhs: ValueId, rhs: ValueId): Result<Mem, RuntimeError>
    requires lhs in m.values && rhs in m.values
  {
    var right := m.values[rhs];
    var left := m.values[lhs];
    var made := ConcatFresh(Shared(Shared(m, right), left), kind, left, right);
    if made.Err? then Err(made.error)
    else Ok(Bound(Made(Dropped(Dropped(made.value.mem, left), right), made.value.handle), dest))
  }

  function ComputeBinary(
    m: Mem, dest: ValueId, op: BinOp, ty: IntType, lhs: ValueId, rhs: ValueId): Result<Mem, RuntimeError>
    requires lhs in m.values && rhs in m.values
  {
    var left, right := m.values[lhs], m.values[rhs];
    var result := ApplyBinaryOp(op, ty, Denote(m.cells, left), Denote(m.cells, right));
    if result.Err? then Err(result.error)
    else Ok(Bound(Made(Dropped(Dropped(Shared(Shared(m, left), right), left), right), Scalar(result.value)), dest))
  }

  /** One instruction over shared buffers. */
  function HExecute(i: Instruction, m: Mem): Result<Mem, RuntimeError> {
    match i
    case Const(dest, value) => Ok(Bound(Materialize(m, value), dest))
    case LocalDecl(local) => Ok(PutLocalIn(m, local, HUnit))
    case LocalRead(dest, local) =>
      if local in m.locals
        then Ok(Bound(Made(Shared(m, m.locals[local]), m.locals[local]), dest)) else Err(SealViolation)
    case LocalWrite(local, source) =>
      if source in m.values
        then Ok(PutLocalIn(Shared(m, m.values[source]), local, m.values[source])) else Err(ValueUndefined(source))
    case ConsumeLocal(local) => Ok(PutLocalIn(m, local, HUnit))
    case Clone(dest, source) =>
      if source in m.values
        then Ok(Bound(Made(Shared(m, m.values[source]), m.values[source]), dest)) else Err(ValueUndefined(source))
    case Append(consumes, dest, kind, lhs, rhs) =>
      if rhs !in m.values then Err(ValueUndefined(rhs))
      else if lhs !in m.values then Err(ValueUndefined(lhs))
      else if consumes then AppendMoving(m, dest, kind, lhs, rhs)
      else AppendCopying(m, dest, kind, lhs, rhs)
    case BinaryOp(dest, op, ty, lhs, rhs) =>
      if lhs !in m.values then Err(ValueUndefined(lhs))
      else if rhs !in m.values then Err(ValueUndefined(rhs))
      else ComputeBinary(m, dest, op, ty, lhs, rhs)
    case DropLocal(_) => Ok(m)
    case DropValue(_) => Ok(m)
  }

  /** `after` is good, holds nothing new in flight, and its bindings are `view`. */
  ghost predicate Becomes(before: Mem, after: Mem, view: View) {
    Good(after) && after.held == before.held && ViewOf(after) == view
  }

  lemma BoundBecomes(before: Mem, made: Made, v: Value, dest: ValueId)
    requires Makes(before, made, v)
    ensures Becomes(before, Bound(made, dest), ViewOf(before).(values := ViewOf(before).values[dest := v]))
  {
    PutInGood(made.mem, dest, made.handle);
    assert before.held + Locs(made.handle) - Locs(made.handle) == before.held;
  }

  lemma SharedMakes(m: Mem, h: Handle)
    requires Good(m) && Live(m.cells, h)
    ensures Makes(m, Made(Shared(m, h), h), Denote(m.cells, h))
  {
    SharedGood(m, h);
    SharedReads(m, h, h);
  }

  lemma LocalBecomes(m: Mem, local: LocalId, made: Made, v: Value)
    requires Makes(m, made, v)
    ensures Becomes(m, PutLocalIn(made.mem, local, made.handle), ViewOf(m).(locals := ViewOf(m).locals[local := v]))
  {
    PutLocalInGood(made.mem, local, made.handle);
    assert m.held + Locs(made.handle) - Locs(made.handle) == m.held;
  }

  lemma RightDropped(h: multiset<Loc>, left: multiset<Loc>, right: multiset<Loc>, out: multiset<Loc>)
    ensures right + out <= h + right + left - left + out
    ensures h + right + left - left + out - right == h + out
    ensures h + out - out == h
  {
  }

  /** The right operand, shared for reading, is dropped once the result is in flight. */
  lemma FinishAppend(before: Mem, made: Made, v: Value, left: Handle, right: Handle, dest: ValueId)
    requires Good(made.mem) && Live(made.mem.cells, made.handle) && Denote(made.mem.cells, made.handle) == v
    requires Live(made.mem.cells, right)
    requires made.mem.held == before.held + Locs(right) + Locs(left) - Locs(left) + Locs(made.handle)
    ensures Becomes(before, Bound(Made(Dropped(made.mem, right), made.handle), dest),
                    ViewOf(made.mem).(values := ViewOf(made.mem).values[dest := v]))
  {
    RightDropped(before.held, Locs(left), Locs(right), Locs(made.handle));
    DroppedGood(made.mem, right);
    DroppedReads(made.mem, right, made.handle);
    PutInGood(Dropped(made.mem, right), dest, made.handle);
  }

  lemma MovedOut(m: Mem, lhs: ValueId, rhs: ValueId)
    requires Good(m) && lhs in m.values && rhs in m.values
    ensures Good(InFlight(m, lhs, rhs))
    ensures ViewOf(InFlight(m, lhs, rhs)) == ViewOf(m).(values := ViewOf(m).values - {lhs})
    ensures SameRead(m, InFlight(m, lhs, rhs), m.values[lhs]) && SameRead(m, InFlight(m, lhs, rhs), m.values[rhs])
    ensures InFlight(m, lhs, rhs).held == m.held + Locs(m.values[rhs]) + Locs(m.values[lhs])
    ensures Locs(m.values[lhs]) + Locs(m.values[rhs]) <= InFlight(m, lhs, rhs).held
  {
    var left, right := m.values[lhs], m.values[rhs];
    SharedGood(m, right);
    SharedReads(m, right, left);
    SharedReads(m, right, right);
    TakenOutGood(Shared(m, right), lhs);
  }

  /** The gate at a consuming concatenation. */
  predicate Unique(m: Mem, lhs: ValueId, rhs: ValueId)
    requires lhs in m.values && rhs in m.values
  {
    Extendable(InFlight(m, lhs, rhs), m.values[lhs], m.values[rhs])
  }

  function Operand(m: Mem, id: ValueId): Value
    requires id in m.values
  {
    Denote(m.cells, m.values[id])
  }

  lemma MovingExtends(m: Mem, dest: ValueId, kind: ConcatKind, lhs: ValueId, rhs: ValueId)
    requires Good(m) && lhs in m.values && rhs in m.values && Unique(m, lhs, rhs)
    ensures AppendMoving(m, dest, kind, lhs, rhs).Ok?
    ensures Becomes(m, AppendMoving(m, dest, kind, lhs, rhs).value,
                    ViewOf(m).(values :=
                      (ViewOf(m).values - {lhs})[dest := Extension(Operand(m, lhs), Operand(m, rhs))]))
  {
    hide Good, PutIn, Dropped, InFlight, ViewOf;
    var left, right, taken := m.values[lhs], m.values[rhs], InFlight(m, lhs, rhs);
    MovedOut(m, lhs, rhs);
    ExtendConsumes(taken, kind, left, right);
    FinishAppend(m, Consume(taken, kind, left, right).value, Extension(Operand(m, lhs), Operand(m, rhs)), left, right,
      dest);
  }

  lemma MovingCopies(m: Mem, dest: ValueId, kind: ConcatKind, lhs: ValueId, rhs: ValueId)
    requires Good(m) && lhs in m.values && rhs in m.values && !Unique(m, lhs, rhs)
    requires Concat(kind, Operand(m, lhs), Operand(m, rhs)).Ok?
    ensures AppendMoving(m, dest, kind, lhs, rhs).Ok?
    ensures Becomes(m, AppendMoving(m, dest, kind, lhs, rhs).value,
                    ViewOf(m).(values :=
                      (ViewOf(m).values - {lhs})[dest := Concat(kind, Operand(m, lhs), Operand(m, rhs)).value]))
  {
    var left, right, taken := m.values[lhs], m.values[rhs], InFlight(m, lhs, rhs);
    MovedOut(m, lhs, rhs);
    CopyConsumes(taken, kind, left, right);
    FinishAppend(m, Consume(taken, kind, left, right).value, Concat(kind, Operand(m, lhs), Operand(m, rhs)).value,
      left, right, dest);
  }

  lemma MovingFails(m: Mem, dest: ValueId, kind: ConcatKind, lhs: ValueId, rhs: ValueId)
    requires Good(m) && lhs in m.values && rhs in m.values && !Unique(m, lhs, rhs)
    requires Concat(kind, Operand(m, lhs), Operand(m, rhs)).Err?
    ensures AppendMoving(m, dest, kind, lhs, rhs) == Err(ConcatMismatch)
  {
    MovedOut(m, lhs, rhs);
  }

  /** A consuming concatenation allocates exactly when its left buffer is shared. */
  lemma AllocatesIffShared(m: Mem, dest: ValueId, kind: ConcatKind, lhs: ValueId, rhs: ValueId)
    requires lhs in m.values && rhs in m.values && SameByteKind(m.values[lhs], m.values[rhs])
    requires AppendMoving(m, dest, kind, lhs, rhs).Ok?
    ensures AppendMoving(m, dest, kind, lhs, rhs).value.next == m.next <==> Unique(m, lhs, rhs)
  {
    hide PutIn, Dropped, Consume;
    var left, right, taken := m.values[lhs], m.values[rhs], InFlight(m, lhs, rhs);
    ConsumeNext(taken, kind, left, right);
    var made := Consume(taken, kind, left, right).value;
    NextKept(made.mem, right, dest, made.handle);
  }

  /** The register holds the only reference to its buffer, and is not read as the right operand too. */
  ghost predicate SoleHolder(m: Mem, lhs: ValueId, rhs: ValueId)
    requires lhs in m.values && HasCell(m.values[lhs])
  {
    var l := m.values[lhs].loc;
    && lhs != rhs && m.held[l] == 0
    && (forall id :: id in m.values && id != lhs ==> !PointsTo(m.values[id], l))
    && (forall id :: id in m.locals ==> !PointsTo(m.locals[id], l))
    && (forall id :: id in m.callers ==> !PointsTo(m.callers[id], l))
  }

  lemma NoHolders(m: Slots, l: Loc)
    ensures Refs(m, l) == 0 <==> forall id :: id in m ==> !PointsTo(m[id], l)
  {
    if forall id :: id in m ==> !PointsTo(m[id], l) {
      assert Holders(m, l) == {};
    } else if Refs(m, l) == 0 {
      NoRefs(m, l);
    }
  }

  lemma NoOtherHolders(m: Slots, own: nat, l: Loc)
    ensures Refs(m - {own}, l) == 0 <==> forall id :: id in m && id != own ==> !PointsTo(m[id], l)
  {
    NoHolders(m - {own}, l);
    if Refs(m - {own}, l) == 0 {
      forall id | id in m && id != own ensures !PointsTo(m[id], l) {
        assert id in m - {own} && (m - {own})[id] == m[id];
      }
    }
  }

  /** A count of one is the register's own reference. */
  lemma CountIsOneIffSole(m: Mem, lhs: ValueId, rhs: ValueId)
    requires Good(m) && lhs in m.values && rhs in m.values && HasCell(m.values[lhs])
    ensures m.values[lhs].loc in m.cells
    ensures SoleHolder(m, lhs, rhs) <==> lhs != rhs && m.cells[m.values[lhs].loc].count == 1
  {
    var l := m.values[lhs].loc;
    BindingsLive(m, lhs);
    assert m.cells[l].count == References(m, l);
    RefsTaken(m.values, lhs, l);
    hide Good, Refs;
    NoOtherHolders(m.values, lhs, l);
    NoHolders(m.locals, l);
    NoHolders(m.callers, l);
  }

  lemma UniqueByCount(m: Mem, lhs: ValueId, rhs: ValueId)
    requires Good(m) && lhs in m.values && rhs in m.values && SameByteKind(m.values[lhs], m.values[rhs])
    ensures m.values[lhs].loc in m.cells
    ensures Unique(m, lhs, rhs) <==> lhs != rhs && m.cells[m.values[lhs].loc].count == 1
  {
    BindingsLive(m, lhs);
    BindingsLive(m, rhs);
    if lhs != rhs && m.values[lhs].loc == m.values[rhs].loc {
      CountIsOneIffSole(m, lhs, rhs);
      assert PointsTo(m.values[rhs], m.values[lhs].loc);
    }
    assert m.cells[m.values[lhs].loc].count > 0;
  }

  /** A consuming concatenation copies nothing exactly when its register is the only holder of the left buffer. */
  lemma ExtendsIffSole(m: Mem, dest: ValueId, kind: ConcatKind, lhs: ValueId, rhs: ValueId)
    requires Good(m) && lhs in m.values && rhs in m.values && SameByteKind(m.values[lhs], m.values[rhs])
    requires AppendMoving(m, dest, kind, lhs, rhs).Ok?
    ensures AppendMoving(m, dest, kind, lhs, rhs).value.next == m.next <==> SoleHolder(m, lhs, rhs)
  {
    hide Good, AppendMoving, SoleHolder, Unique;
    AllocatesIffShared(m, dest, kind, lhs, rhs);
    UniqueByCount(m, lhs, rhs);
    CountIsOneIffSole(m, lhs, rhs);
  }

  lemma NextKept(m: Mem, dropped: Handle, dest: ValueId, h: Handle)
    ensures Dropped(m, dropped).next == m.next && PutIn(Dropped(m, dropped), dest, h).next == m.next
  {
  }

  lemma ConsumeNext(m: Mem, kind: ConcatKind, left: Handle, right: Handle)
    requires Consume(m, kind, left, right).Ok?
    ensures Consume(m, kind, left, right).value.mem.next == if Extendable(m, left, right) then m.next else m.next + 1
  {
    hide Denote, Concat, PutIn, Dropped;
    ConcatIsBytes(kind, Denote(m.cells, left), Denote(m.cells, right));
    if !Extendable(m, left, right) {
      NextKept(ConcatFresh(m, kind, left, right).value.mem, left, 0, HUnit);
    }
  }

  lemma ConcatIsBytes(kind: ConcatKind, left: Value, right: Value)
    ensures Concat(kind, left, right).Ok? ==>
      Concat(kind, left, right).value.String? || Concat(kind, left, right).value.Binary? ||
        Concat(kind, left, right).value.Bits?
  {
  }

  lemma BothShared(m: Mem, first: Handle, second: Handle)
    requires Good(m) && Live(m.cells, first) && Live(m.cells, second)
    ensures var both := Shared(Shared(m, first), second);
            && Good(both) && ViewOf(both) == ViewOf(m) && both.held == m.held + Locs(first) + Locs(second)
            && SameRead(m, both, first) && SameRead(m, both, second)
  {
    SharedGood(m, first);
    SharedReads(m, first, first);
    SharedReads(m, first, second);
    SharedGood(Shared(m, first), second);
    SharedReads(Shared(m, first), second, first);
    SharedReads(Shared(m, first), second, second);
  }

  lemma CopyingCopies(m: Mem, dest: ValueId, kind: ConcatKind, lhs: ValueId, rhs: ValueId)
    requires Good(m) && lhs in m.values && rhs in m.values
    requires Concat(kind, Operand(m, lhs), Operand(m, rhs)).Ok?
    ensures AppendCopying(m, dest, kind, lhs, rhs).Ok?
    ensures Becomes(m, AppendCopying(m, dest, kind, lhs, rhs).value,
                    ViewOf(m).(values :=
                      ViewOf(m).values[dest := Concat(kind, Operand(m, lhs), Operand(m, rhs)).value]))
  {
    hide Good, Shared, Dropped, Materialize, Bound, Concat;
    BindingsLive(m, lhs);
    BindingsLive(m, rhs);
    var left, right := m.values[lhs], m.values[rhs];
    var joined := Concat(kind, Operand(m, lhs), Operand(m, rhs)).value;
    var both := Shared(Shared(m, right), left);
    BothShared(m, right, left);
    ConcatFreshMakes(both, kind, left, right);
    MaterializeReads(both, joined, left);
    MaterializeReads(both, joined, right);
    var made := Materialize(both, joined);
    HeldBoth(m.held, Locs(right), Locs(left));
    OperandDropped(both, made, joined, left, right);
    FinishAppend(m, Made(Dropped(made.mem, left), made.handle), joined, left, right, dest);
  }

  lemma CopyingFails(m: Mem, dest: ValueId, kind: ConcatKind, lhs: ValueId, rhs: ValueId)
    requires Good(m) && lhs in m.values && rhs in m.values
    requires Concat(kind, Operand(m, lhs), Operand(m, rhs)).Err?
    ensures AppendCopying(m, dest, kind, lhs, rhs) == Err(ConcatMismatch)
  {
    BothShared(m, m.values[rhs], m.values[lhs]);
  }

  lemma HeldBoth(h: multiset<Loc>, a: multiset<Loc>, b: multiset<Loc>)
    ensures b + a <= h + a + b && a <= h + a + b && b <= h + a + b - a
    ensures h + a + b - a - b == h
  {
  }

  lemma BothDropped(m: Mem, left: Handle, right: Handle)
    requires Good(m) && Live(m.cells, left) && Live(m.cells, right)
    ensures Becomes(m, Dropped(Dropped(Shared(Shared(m, left), right), left), right), ViewOf(m))
  {
    var both := Shared(Shared(m, left), right);
    BothShared(m, left, right);
    HeldBoth(m.held, Locs(left), Locs(right));
    DroppedGood(both, left);
    DroppedReads(both, left, right);
    DroppedGood(Dropped(both, left), right);
  }

  /** A value read and let go again leaves no trace. */
  lemma ReadAndDropped(m: Mem, h: Handle)
    requires Good(m) && Live(m.cells, h)
    ensures Becomes(m, Dropped(Shared(m, h), h), ViewOf(m))
  {
    SharedGood(m, h);
    SharedReads(m, h, h);
    DroppedGood(Shared(m, h), h);
    assert m.held + Locs(h) - Locs(h) == m.held;
  }

  /** A consuming concatenation given up: its left register is gone and nothing else has changed. */
  lemma MovingAbandoned(m: Mem, lhs: ValueId, rhs: ValueId)
    requires Good(m) && lhs in m.values && rhs in m.values
    ensures Becomes(m, Dropped(Dropped(InFlight(m, lhs, rhs), m.values[lhs]), m.values[rhs]),
                    ViewOf(m).(values := ViewOf(m).values - {lhs}))
  {
    hide Good, Dropped, InFlight, ViewOf;
    var left, right, taken := m.values[lhs], m.values[rhs], InFlight(m, lhs, rhs);
    MovedOut(m, lhs, rhs);
    HeldBoth(m.held, Locs(right), Locs(left));
    HeldSwap(m.held, Locs(right), Locs(left));
    DroppedGood(taken, left);
    DroppedReads(taken, left, right);
    DroppedGood(Dropped(taken, left), right);
  }

  lemma HeldSwap(h: multiset<Loc>, a: multiset<Loc>, b: multiset<Loc>)
    ensures h + a + b - b - a == h && b <= h + a + b && a <= h + a + b - b
  {
  }

  lemma BinaryResultIsScalar(op: BinOp, ty: IntType, l: Value, r: Value)
    requires ApplyBinaryOp(op, ty, l, r).Ok?
    ensures ApplyBinaryOp(op, ty, l, r).value.Bool? || ApplyBinaryOp(op, ty, l, r).value.Int?
  {
  }

  lemma ComputeBinaryComputes(m: Mem, dest: ValueId, op: BinOp, ty: IntType, lhs: ValueId, rhs: ValueId)
    requires Good(m) && lhs in m.values && rhs in m.values
    requires ApplyBinaryOp(op, ty, Operand(m, lhs), Operand(m, rhs)).Ok?
    ensures ComputeBinary(m, dest, op, ty, lhs, rhs).Ok?
    ensures Becomes(m, ComputeBinary(m, dest, op, ty, lhs, rhs).value,
                    ViewOf(m).(values :=
                      ViewOf(m).values[dest := ApplyBinaryOp(op, ty, Operand(m, lhs), Operand(m, rhs)).value]))
  {
    var left, right := m.values[lhs], m.values[rhs];
    var result := ApplyBinaryOp(op, ty, Operand(m, lhs), Operand(m, rhs)).value;
    BinaryResultIsScalar(op, ty, Operand(m, lhs), Operand(m, rhs));
    BothDropped(m, left, right);
    var quiet := Dropped(Dropped(Shared(Shared(m, left), right), left), right);
    ScalarMakes(quiet, result);
    BoundBecomes(quiet, Made(quiet, Scalar(result)), result, dest);
  }

  lemma ComputeBinaryFails(m: Mem, dest: ValueId, op: BinOp, ty: IntType, lhs: ValueId, rhs: ValueId)
    requires lhs in m.values && rhs in m.values
    requires ApplyBinaryOp(op, ty, Operand(m, lhs), Operand(m, rhs)).Err?
    ensures ComputeBinary(m, dest, op, ty, lhs, rhs) ==
            Err(ApplyBinaryOp(op, ty, Operand(m, lhs), Operand(m, rhs)).error)
  {
  }

  /** The consuming concatenation whose operands are of one byte kind but not the kind it names. */
  ghost predicate SlipsThrough(i: Instruction, m: Mem) {
    && i.Append? && i.consumesLhs && i.lhs in m.values && i.rhs in m.values
    && Concat(i.kind, Operand(m, i.lhs), Operand(m, i.rhs)).Err?
    && Unique(m, i.lhs, i.rhs)
  }

  /** What the bindings are after a concatenation has slipped through. */
  ghost function SlippedView(i: Instruction, m: Mem): View
    requires SlipsThrough(i, m)
  {
    ViewOf(m).(values := (ViewOf(m).values - {i.lhs})[i.dest := Extension(Operand(m, i.lhs), Operand(m, i.rhs))])
  }

  function ViewWith(m: Mem, f: Frame): View {
    View(f.values, f.locals, ViewOf(m).callers)
  }

  /**
   An instruction over shared buffers does what it does over plain values, to
   the frame and to nothing else. The one exception is the concatenation that
   slips through: it succeeds where plain values report a mismatch.
   */
  lemma ExecuteRefines(i: Instruction, m: Mem)
    requires Good(m) && (i.Const? ==> Canonical(i.value))
    ensures var x, y := HExecute(i, m), Execute(i, FrameOf(m), true);
            && (y.Ok? ==> x.Ok? && Becomes(m, x.value, ViewWith(m, y.value)))
            && (y.Err? && !SlipsThrough(i, m) ==> x == Err(y.error))
            && (SlipsThrough(i, m) ==> y == Err(ConcatMismatch) && x.Ok? && Becomes(m, x.value, SlippedView(i, m)))
  {
    hide Good, Bound, PutLocalIn, Shared, Materialize, ComputeBinary, ApplyBinaryOp;
    match i
    case Const(dest, value) =>
      MaterializeMakes(m, value);
      BoundBecomes(m, Materialize(m, value), value, dest);
    case LocalDecl(local) =>
      ScalarMakes(m, Unit);
      LocalBecomes(m, local, Made(m, HUnit), Unit);
    case LocalRead(dest, local) =>
      if local in m.locals {
        BindingsLive(m, local);
        SharedMakes(m, m.locals[local]);
        BoundBecomes(m, Made(Shared(m, m.locals[local]), m.locals[local]), ViewOf(m).locals[local], dest);
      }
    case LocalWrite(local, source) =>
      if source in m.values {
        BindingsLive(m, source);
        SharedMakes(m, m.values[source]);
        LocalBecomes(m, local, Made(Shared(m, m.values[source]), m.values[source]), ViewOf(m).values[source]);
      }
    case ConsumeLocal(local) =>
      ScalarMakes(m, Unit);
      LocalBecomes(m, local, Made(m, HUnit), Unit);
    case Clone(dest, source) =>
      if source in m.values {
        BindingsLive(m, source);
        SharedMakes(m, m.values[source]);
        BoundBecomes(m, Made(Shared(m, m.values[source]), m.values[source]), ViewOf(m).values[source], dest);
      }
    case Append(consumes, dest, kind, lhs, rhs) =>
      AppendRefines(i, m);
    case BinaryOp(dest, op, ty, lhs, rhs) =>
      if lhs in m.values && rhs in m.values {
        if ApplyBinaryOp(op, ty, Operand(m, lhs), Operand(m, rhs)).Ok? {
          ComputeBinaryComputes(m, dest, op, ty, lhs, rhs);
        } else {
          ComputeBinaryFails(m, dest, op, ty, lhs, rhs);
        }
      }
    case _ =>
  }

  lemma AppendRefines(i: Instruction, m: Mem)
    requires Good(m) && i.Append?
    ensures var x, y := HExecute(i, m), Execute(i, FrameOf(m), true);
            && (y.Ok? ==> x.Ok? && Becomes(m, x.value, ViewWith(m, y.value)))
            && (y.Err? && !SlipsThrough(i, m) ==> x == Err(y.error))
            && (SlipsThrough(i, m) ==> y == Err(ConcatMismatch) && x.Ok? && Becomes(m, x.value, SlippedView(i, m)))
  {
    hide Good, AppendMoving, AppendCopying, Unique, Concat, Extension;
    if i.lhs in m.values && i.rhs in m.values {
      ConcatFailsByMismatch(i.kind, Operand(m, i.lhs), Operand(m, i.rhs));
      var matches := Concat(i.kind, Operand(m, i.lhs), Operand(m, i.rhs)).Ok?;
      if i.consumesLhs {
        if Unique(m, i.lhs, i.rhs) {
          MovingExtends(m, i.dest, i.kind, i.lhs, i.rhs);
          UniqueIsByteKind(m, i.lhs, i.rhs);
        } else if matches {
          MovingCopies(m, i.dest, i.kind, i.lhs, i.rhs);
        } else {
          MovingFails(m, i.dest, i.kind, i.lhs, i.rhs);
        }
      } else if matches {
        CopyingCopies(m, i.dest, i.kind, i.lhs, i.rhs);
      } else {
        CopyingFails(m, i.dest, i.kind, i.lhs, i.rhs);
      }
    }
  }

  /** Where the gate opens and the kinds match, extending is concatenating. */
  lemma UniqueIsByteKind(m: Mem, lhs: ValueId, rhs: ValueId)
    requires lhs in m.values && rhs in m.values && Unique(m, lhs, rhs)
    ensures forall kind :: Concat(kind, Operand(m, lhs), Operand(m, rhs)).Ok? ==>
      Concat(kind, Operand(m, lhs), Operand(m, rhs)).value == Extension(Operand(m, lhs), Operand(m, rhs))
  {
  }
}
