/**
 A typed function meets no mistyped concatenation. A typing says, for every point
 of the block graph, what registers and slots hold there; it only has to be
 consistent from each point to the next.
 */
module Typing {
  import opened Values
  import opened IntOps
  import opened Program
  import opened PureMachine
  import opened Simulation
  import opened RcHeap
  import opened RcControl
  import opened RcRuns
  import opened Liveness
  import opened Wrappers

  datatype Ty = UnitTy | BoolTy | IntTy | StringTy | BinaryTy | BitsTy

  function TypeOf(v: Value): Ty {
    match v
    case Unit => UnitTy
    case Bool(_) => BoolTy
    case Int(_) => IntTy
    case String(_) => StringTy
    case Binary(_) => BinaryTy
    case Bits(_, _) => BitsTy
  }

  function KindType(kind: ConcatKind): Ty {
    match kind
    case StringKind => StringTy
    case BinaryKind => BinaryTy
    case BitsKind => BitsTy
  }

  function ResultType(op: BinOp): Ty {
    if IsArith(op) then IntTy else BoolTy
  }

  type TypeMap = map<nat, Ty>

  /** What is known at one point. A register or slot with no entry may hold anything. */
  datatype Types = Types(regs: TypeMap, slots: TypeMap)

  type TypingOf = (Block, nat) -> Types

  // ----- what an instruction makes of the types -----

  function Known(m: TypeMap, k: nat): Option<Ty> {
    if k in m then Some(m[k]) else None
  }

  function Set(m: TypeMap, k: nat, ty: Option<Ty>): TypeMap {
    if ty.Some? then m[k := ty.value] else m - {k}
  }

  function After(i: Instruction, t: Types): Types {
    match i
    case Const(dest, value) => Types(t.regs[dest := TypeOf(value)], t.slots)
    case LocalDecl(local) => Types(t.regs, t.slots[local := UnitTy])
    case LocalRead(dest, local) => Types(Set(t.regs, dest, Known(t.slots, local)), t.slots)
    case LocalWrite(local, source) => Types(t.regs, Set(t.slots, local, Known(t.regs, source)))
    case ConsumeLocal(local) => Types(t.regs, t.slots[local := UnitTy])
    case Clone(dest, source) => Types(Set(t.regs, dest, Known(t.regs, source)), t.slots)
    case Append(_, dest, kind, _, _) => Types(t.regs[dest := KindType(kind)], t.slots)
    case BinaryOp(dest, op, _, _, _) => Types(t.regs[dest := ResultType(op)], t.slots)
    case DropLocal(_) => t
    case DropValue(_) => t
  }

  /** A concatenation names the type of both its operands. */
  predicate Accepts(i: Instruction, t: Types) {
    i.Append? ==> Known(t.regs, i.lhs) == Some(KindType(i.kind)) && Known(t.regs, i.rhs) == Some(KindType(i.kind))
  }

  function BindTypes(m: TypeMap, names: seq<ValueId>, tys: seq<Option<Ty>>): TypeMap
    requires |names| == |tys|
  {
    if names == [] then m
    else
      var n := |names| - 1;
      Set(BindTypes(m, names[..n], tys[..n]), names[n], tys[n])
  }

  function KnownAll(m: TypeMap, ids: seq<ValueId>): (r: seq<Option<Ty>>)
    ensures |r| == |ids| && forall i :: 0 <= i < |ids| ==> r[i] == Known(m, ids[i])
  {
    seq(|ids|, i requires 0 <= i < |ids| => Known(m, ids[i]))
  }

  /** Everything known on the left is known on the right. */
  ghost predicate Within(a: TypeMap, b: TypeMap) {
    forall k :: k in a ==> k in b && a[k] == b[k]
  }

  ghost predicate Follows(after: Types, before: Types) {
    Within(after.regs, before.regs) && Within(after.slots, before.slots)
  }

  function Somes(tys: seq<Ty>): (r: seq<Option<Ty>>)
    ensures |r| == |tys| && forall i :: 0 <= i < |tys| ==> r[i] == Some(tys[i])
  {
    seq(|tys|, i requires 0 <= i < |tys| => Some(tys[i]))
  }

  /** What is known in a frame just entered with arguments of the given types. */
  function EntryTypes(f: Function, signature: seq<Ty>): Types {
    var n := PureMachine.Min(|f.params|, |signature|);
    Types(BindTypes(map[], f.params[..n], Somes(signature)[..n]), map[])
  }

  ghost predicate EdgeTyped(f: Function, typing: TypingOf, t: Types, target: Target) {
    var found := FindBlock(f.blocks, target.block);
    found.Some? && |target.args| == |found.value.params| ==>
      Follows(typing(found.value, 0),
        Types(BindTypes(t.regs, found.value.params, KnownAll(t.regs, target.args)), t.slots))
  }

  ghost predicate TerminatorTyped(f: Function, typing: TypingOf, signature: seq<Ty>, t: Types, end: Terminator) {
    && (forall e :: e in Targets(end) ==> EdgeTyped(f, typing, t, e))
    && (end.TailCall? ==> KnownAll(t.regs, end.args) == Somes(signature))
  }

  ghost predicate BlockTyped(f: Function, typing: TypingOf, signature: seq<Ty>, b: Block) {
    && (forall k :: 0 <= k < |b.instructions| ==>
          Accepts(b.instructions[k], typing(b, k)) && Follows(typing(b, k + 1), After(b.instructions[k], typing(b, k))))
    && TerminatorTyped(f, typing, signature, typing(b, |b.instructions|), b.terminator)
  }

  ghost predicate WellTyped(f: Function, typing: TypingOf, signature: seq<Ty>) {
    && (f.blocks != [] ==> Follows(typing(f.blocks[0], 0), EntryTypes(f, signature)))
    && forall b :: b in f.blocks ==> BlockTyped(f, typing, signature, b)
  }

  // ----- frames of a type -----

  ghost predicate Has(values: map<nat, Value>, m: TypeMap) {
    forall k :: k in m && k in values ==> TypeOf(values[k]) == m[k]
  }

  ghost predicate Fits(frame: Frame, t: Types) {
    Has(frame.values, t.regs) && Has(frame.locals, t.slots)
  }

  lemma HasLess(values: map<nat, Value>, a: TypeMap, b: TypeMap)
    requires Has(values, b) && Within(a, b)
    ensures Has(values, a)
  {
  }

  lemma HasSet(values: map<nat, Value>, m: TypeMap, k: nat, v: Value, ty: Option<Ty>)
    requires Has(values, m) && (ty.Some? ==> TypeOf(v) == ty.value)
    ensures Has(values[k := v], Set(m, k, ty))
  {
  }

  /** A result of the given type, or an error other than a mistyped concatenation. */
  predicate Yields(r: Result<Value, RuntimeError>, ty: Ty) {
    match r
    case Ok(v) => TypeOf(v) == ty
    case Err(e) => e != ConcatMismatch
  }

  lemma ArithTyped(op: BinOp, ty: IntType, l: Value, r: Value)
    requires IsArith(op)
    ensures Yields(ApplyIntArith(op, ty, l, r), IntTy)
  {
    hide Exact, Wrap128, StoreWord, IntOperand, IntOps.Min, IntOps.Max, Symbol;
  }

  lemma CompareTyped(op: BinOp, ty: IntType, l: Value, r: Value)
    requires IsOrder(op)
    ensures Yields(ApplyIntCompare(op, ty, l, r), BoolTy)
  {
    hide IntOperand;
  }

  lemma EqualityTyped(op: BinOp, l: Value, r: Value)
    requires op.Eq? || op.NotEq?
    ensures Yields(ApplyEquality(op, l, r), BoolTy)
  {
  }

  lemma BinaryTyped(op: BinOp, ty: IntType, l: Value, r: Value)
    ensures Yields(ApplyBinaryOp(op, ty, l, r), ResultType(op))
  {
    hide ApplyIntArith, ApplyIntCompare, ApplyEquality, Yields;
    if IsArith(op) {
      ArithTyped(op, ty, l, r);
    } else if IsOrder(op) {
      CompareTyped(op, ty, l, r);
    } else {
      EqualityTyped(op, l, r);
    }
  }

  lemma ConcatTyped(kind: ConcatKind, l: Value, r: Value)
    requires TypeOf(l) == KindType(kind) && TypeOf(r) == KindType(kind)
    ensures Concat(kind, l, r).Ok? && TypeOf(Concat(kind, l, r).value) == KindType(kind)
  {
  }

  lemma ExecuteTyped(i: Instruction, frame: Frame, t: Types, moves: bool)
    requires Fits(frame, t) && Accepts(i, t)
    ensures match Execute(i, frame, moves)
            case Ok(next) => Fits(next, After(i, t))
            case Err(e) => e != ConcatMismatch
  {
    hide Concat, ApplyBinaryOp;
    match i
    case Append(_, _, kind, lhs, rhs) =>
      if lhs in frame.values && rhs in frame.values {
        ConcatTyped(kind, frame.values[lhs], frame.values[rhs]);
      }
    case BinaryOp(_, op, ty, lhs, rhs) =>
      if lhs in frame.values && rhs in frame.values {
        BinaryTyped(op, ty, frame.values[lhs], frame.values[rhs]);
      }
    case _ =>
  }

  // ----- leaving a block -----

  /** Every value has the type known for it. */
  ghost predicate AllHave(values: seq<Value>, tys: seq<Option<Ty>>) {
    |values| == |tys| && forall i :: 0 <= i < |tys| && tys[i].Some? ==> TypeOf(values[i]) == tys[i].value
  }

  lemma {:induction false} BindTyped(
    values: Registers, m: TypeMap, names: seq<ValueId>, bound: seq<Value>, tys: seq<Option<Ty>>)
    requires Has(values, m) && |names| == |bound| && AllHave(bound, tys)
    ensures Has(BindAll(values, names, bound), BindTypes(m, names, tys))
  {
    if names != [] {
      var n := |names| - 1;
      BindTyped(values, m, names[..n], bound[..n], tys[..n]);
      HasSet(BindAll(values, names[..n], bound[..n]), BindTypes(m, names[..n], tys[..n]), names[n], bound[n], tys[n]);
    }
  }

  lemma LookedUpTyped(values: Registers, m: TypeMap, ids: seq<ValueId>)
    requires Has(values, m) && LookupAll(values, ids).Ok?
    ensures AllHave(LookupAll(values, ids).value, KnownAll(m, ids))
  {
  }

  /** At its point, with the types known there, and not stopped by a mistyped concatenation. */
  ghost predicate Typed(f: Function, typing: TypingOf, c: Config) {
    match c.control
    case At(block, pc) => block in f.blocks && pc <= |block.instructions| && Fits(c.frame, typing(block, pc))
    case Done(_) => true
    case Failed(e) => e != ConcatMismatch
  }

  lemma EnterTyped(f: Function, typing: TypingOf, signature: seq<Ty>, args: seq<Value>)
    requires WellTyped(f, typing, signature) && AllHave(args, Somes(signature))
    ensures Typed(f, typing, Enter(f, args))
  {
    hide BindAll, BindTypes, BlockTyped;
    var n := PureMachine.Min(|f.params|, |args|);
    BindTyped(map[], map[], f.params[..n], args[..n], Somes(signature)[..n]);
    if f.blocks != [] {
      HasLess(EntryFrame(f, args).values, typing(f.blocks[0], 0).regs, EntryTypes(f, signature).regs);
    }
  }

  lemma JumpTyped(f: Function, typing: TypingOf, frame: Frame, t: Types, target: Target)
    requires Fits(frame, t) && EdgeTyped(f, typing, t, target)
    ensures Typed(f, typing, Jump(f, frame, target))
  {
    hide BindAll, BindTypes;
    var found, bound := FindBlock(f.blocks, target.block), LookupAll(frame.values, target.args);
    if found.Some? && |target.args| == |found.value.params| && bound.Ok? {
      LookedUpTyped(frame.values, t.regs, target.args);
      BindTyped(frame.values, t.regs, found.value.params, bound.value, KnownAll(t.regs, target.args));
    }
  }

  lemma TerminateTyped(f: Function, typing: TypingOf, signature: seq<Ty>, frame: Frame, t: Types, end: Terminator)
    requires WellTyped(f, typing, signature) && Fits(frame, t) && TerminatorTyped(f, typing, signature, t, end)
    ensures Typed(f, typing, Terminate(f, frame, end))
  {
    hide Jump, Enter, EdgeTyped, WellTyped, Fits;
    match end
    case Branch(target) =>
      assert target in Targets(end);
      JumpTyped(f, typing, frame, t, target);
    case CondBranch(_, thenTarget, elseTarget) =>
      assert thenTarget in Targets(end) && elseTarget in Targets(end);
      JumpTyped(f, typing, frame, t, thenTarget);
      JumpTyped(f, typing, frame, t, elseTarget);
    case TailCall(args) =>
      if LookupAll(frame.values, args).Ok? {
        FitsRegisters(frame, t);
        LookedUpTyped(frame.values, t.regs, args);
        EnterTyped(f, typing, signature, LookupAll(frame.values, args).value);
      }
    case _ =>
  }

  lemma FitsRegisters(frame: Frame, t: Types)
    requires Fits(frame, t)
    ensures Has(frame.values, t.regs)
  {
  }

  lemma StepTyped(f: Function, typing: TypingOf, signature: seq<Ty>, c: Config, moves: bool)
    requires WellTyped(f, typing, signature) && Typed(f, typing, c)
    ensures Typed(f, typing, Step(f, c, moves))
  {
    if c.control.At? {
      hide Execute, Terminate, After, Accepts, TerminatorTyped, Has;
      var block, pc := c.control.block, c.control.pc;
      assert BlockTyped(f, typing, signature, block);
      if pc < |block.instructions| {
        var i, t := block.instructions[pc], typing(block, pc);
        ExecuteTyped(i, c.frame, t, moves);
        var next := Execute(i, c.frame, moves);
        if next.Ok? {
          HasLess(next.value.values, typing(block, pc + 1).regs, After(i, t).regs);
          HasLess(next.value.locals, typing(block, pc + 1).slots, After(i, t).slots);
        }
      } else {
        TerminateTyped(f, typing, signature, c.frame, typing(block, pc), block.terminator);
      }
    }
  }

  // ----- whole runs -----

  /** No run of a typed function meets a mistyped concatenation. */
  lemma {:induction false} RunTyped(
    f: Function, typing: TypingOf, signature: seq<Ty>, c: Config, moves: bool, steps: nat)
    requires WellTyped(f, typing, signature) && Typed(f, typing, c)
    ensures Typed(f, typing, Run(f, c, moves, steps)) && !Mistyped(Run(f, c, moves, steps))
  {
    hide Step, WellTyped;
    if steps > 0 {
      RunTyped(f, typing, signature, c, moves, steps - 1);
      StepTyped(f, typing, signature, Run(f, c, moves, steps - 1), moves);
    }
  }

  /**
   In a sealed and typed function whose consumed operands are dead, a call over
   shared buffers is at every moment exactly where the call over plain copied
   values is, with the same result or the same error.
   */
  lemma TypedSharingIsCopying(
    f: Function, dead: Deadness, typing: TypingOf, signature: seq<Ty>,
    m: Mem, args: seq<Handle>, held: multiset<Loc>, release: bool, steps: nat)
    requires Callable(f, m, args, held) && Sealed(f) && Consistent(f, dead) && ConsumesDead(f, dead)
    requires WellTyped(f, typing, signature) && AllHave(Meanings(m.cells, args), Somes(signature))
    ensures HProgress(Call(f, m, args, release, steps)) ==
            PlainProgress(PlainCall(f, Meanings(m.cells, args), false, steps))
  {
    hide Callable, Sealed, Consistent, ConsumesDead, WellTyped, HRun, Run, HEnter, Enter, AllHave;
    SharingIsCopying(f, dead, m, args, held, release, steps);
    EnterTyped(f, typing, signature, Meanings(m.cells, args));
    RunTyped(f, typing, signature, Enter(f, Meanings(m.cells, args)), false, steps);
  }
}
