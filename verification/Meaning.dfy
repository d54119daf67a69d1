/**
 What the machine over plain values does, said of its frames and points of
 control alone: which registers a call, an edge and an instruction bind, and
 where each terminator goes.
 */
module Meaning {
  import opened Values
  import opened IntOps
  import opened Program
  import opened PureMachine
  import opened Wrappers

  // ----- reading and binding -----

  /** `id` is the first of the registers that is not there. */
  ghost predicate FirstMissing<T>(values: map<ValueId, T>, ids: seq<ValueId>, id: ValueId) {
    exists k :: 0 <= k < |ids| && ids[k] == id && id !in values && forall j :: 0 <= j < k ==> ids[j] in values
  }

  lemma {:induction false} LookupStopsFirst<T>(values: map<ValueId, T>, ids: seq<ValueId>)
    requires LookupAll(values, ids).Err?
    ensures FirstMissing(values, ids, LookupAll(values, ids).error.id)
  {
    if ids[0] !in values {
      assert ids[0] == LookupAll(values, ids).error.id;
    } else {
      LookupStopsFirst(values, ids[1..]);
      var id := LookupAll(values, ids).error.id;
      var k :| 0 <= k < |ids[1..]| && ids[1..][k] == id && id !in values &&
               forall j :: 0 <= j < k ==> ids[1..][j] in values;
      assert ids[k + 1] == id;
      forall j | 0 <= j < k + 1 ensures ids[j] in values {
        assert j == 0 || ids[j] == ids[1..][j - 1];
      }
    }
  }

  // ----- calls -----

  /** No later parameter that gets an argument has the same name. */
  ghost predicate LastOfItsName(f: Function, args: seq<Value>, i: nat)
    requires i < |f.params|
  {
    forall j :: i < j < |f.params| && j < |args| ==> f.params[j] != f.params[i]
  }

  /**
   The start of a call: each parameter that gets an argument holds it, no other
   register is bound, no local is, and control is at the first block.
   */
  ghost predicate IsEntry(f: Function, args: seq<Value>, c: Config) {
    && (forall i :: 0 <= i < |f.params| && i < |args| && LastOfItsName(f, args, i) ==>
          f.params[i] in c.frame.values && c.frame.values[f.params[i]] == args[i])
    && (forall v :: v in c.frame.values ==> exists i :: 0 <= i < |f.params| && i < |args| && f.params[i] == v)
    && c.frame.locals == map[]
    && c.control == if f.blocks == [] then Failed(SealViolation) else At(f.blocks[0], 0)
  }

  lemma EntryBinds(f: Function, args: seq<Value>)
    ensures IsEntry(f, args, Enter(f, args))
  {
    hide BindAll;
    var n := if |f.params| < |args| then |f.params| else |args|;
    var values := Enter(f, args).frame.values;
    assert values == BindAll(map[], f.params[..n], args[..n]);
    forall i | 0 <= i < |f.params| && i < |args| && LastOfItsName(f, args, i)
      ensures f.params[i] in values && values[f.params[i]] == args[i]
    {
      assert f.params[..n][i] !in f.params[..n][i + 1..];
      BindAllSets(map[], f.params[..n], args[..n], i);
    }
    forall v | v in values ensures exists i :: 0 <= i < |f.params| && i < |args| && f.params[i] == v {
      if v !in f.params[..n] {
        BindAllKeeps(map[], f.params[..n], args[..n], v);
      }
      var i :| 0 <= i < n && f.params[..n][i] == v;
      assert f.params[i] == v;
    }
  }

  // ----- edges -----

  /** `block` is the first one with the id the edge names. */
  ghost predicate Names(f: Function, target: Target, block: Block) {
    exists k :: 0 <= k < |f.blocks| && f.blocks[k] == block && block.id == target.block &&
      forall j :: 0 <= j < k ==> f.blocks[j].id != target.block
  }

  lemma {:induction false} FindsFirst(blocks: seq<Block>, id: BlockId) returns (k: nat)
    requires FindBlock(blocks, id).Some?
    ensures k < |blocks| && FindBlock(blocks, id) == Some(blocks[k]) && blocks[k].id == id
    ensures forall j :: 0 <= j < k ==> blocks[j].id != id
  {
    if blocks[0].id == id {
      k := 0;
    } else {
      var i := FindsFirst(blocks[1..], id);
      k := i + 1;
      forall j | 0 <= j < k ensures blocks[j].id != id {
        assert j == 0 || blocks[j] == blocks[1..][j - 1];
      }
    }
  }

  /** No later parameter has the name of the `i`-th. */
  predicate NotRepeated(params: seq<ValueId>, i: nat)
    requires i < |params|
  {
    params[i] !in params[i + 1..]
  }

  /** The parameters hold what the arguments held before, and every other register is as it was. */
  ghost predicate Rebound(before: Registers, after: Registers, params: seq<ValueId>, args: seq<ValueId>)
    requires |params| == |args|
  {
    && (forall i :: 0 <= i < |params| && NotRepeated(params, i) ==>
          args[i] in before && params[i] in after && after[params[i]] == before[args[i]])
    && (forall v :: v !in params ==> (v in after <==> v in before))
    && (forall v :: v !in params && v in before ==> after[v] == before[v])
  }

  lemma ParamRebound(before: Registers, params: seq<ValueId>, args: seq<ValueId>, i: nat)
    requires i < |params| == |args| && LookupAll(before, args).Ok? && NotRepeated(params, i)
    ensures var after := BindAll(before, params, LookupAll(before, args).value);
            args[i] in before && params[i] in after && after[params[i]] == before[args[i]]
  {
    hide BindAll, LookupAll;
    BindAllSets(before, params, LookupAll(before, args).value, i);
  }

  lemma BoundIsRebound(before: Registers, params: seq<ValueId>, args: seq<ValueId>)
    requires |params| == |args| && LookupAll(before, args).Ok?
    ensures Rebound(before, BindAll(before, params, LookupAll(before, args).value), params, args)
  {
    hide BindAll, LookupAll, NotRepeated;
    var bound := LookupAll(before, args).value;
    var after := BindAll(before, params, bound);
    forall i | 0 <= i < |params| && NotRepeated(params, i)
      ensures args[i] in before && params[i] in after && after[params[i]] == before[args[i]]
    {
      ParamRebound(before, params, args, i);
    }
    forall v | v !in params ensures (v in after <==> v in before) && (v in before ==> after[v] == before[v]) {
      BindAllKeeps(before, params, bound, v);
    }
  }

  /** Control is at the start of the block with its parameters bound in parallel, or an argument is missing. */
  ghost predicate Enters(frame: Frame, target: Target, block: Block, next: Config)
    requires |block.params| == |target.args|
  {
    if exists a :: a in target.args && a !in frame.values then
      && next.control.Failed? && next.control.error.ValueUndefined?
      && FirstMissing(frame.values, target.args, next.control.error.id)
    else
      && next.control == At(block, 0) && next.frame.locals == frame.locals
      && Rebound(frame.values, next.frame.values, block.params, target.args)
  }

  /** Where an edge leads: into the block it names, or to a failure where there is none or its arity differs. */
  ghost predicate Follows(f: Function, frame: Frame, target: Target, next: Config) {
    if exists block :: Names(f, target, block) && |block.params| == |target.args| then
      exists block :: Names(f, target, block) && |block.params| == |target.args| && Enters(frame, target, block, next)
    else next.control == Failed(SealViolation)
  }

  lemma NamedOnce(f: Function, target: Target, a: Block, b: Block)
    requires Names(f, target, a) && Names(f, target, b)
    ensures a == b
  {
  }

  lemma JumpFollows(f: Function, frame: Frame, target: Target)
    ensures Follows(f, frame, target, Jump(f, frame, target))
  {
    hide BindAll, FindBlock, LookupAll, Rebound, FirstMissing, Names;
    var found := FindBlock(f.blocks, target.block);
    if found.None? {
      NoneNamed(f, target);
    } else {
      FoundIsNamed(f, target);
      forall block | Names(f, target, block) ensures block == found.value {
        NamedOnce(f, target, block, found.value);
      }
      if |found.value.params| == |target.args| {
        if LookupAll(frame.values, target.args).Ok? {
          BoundIsRebound(frame.values, found.value.params, target.args);
        } else {
          LookupStopsFirst(frame.values, target.args);
        }
        assert Enters(frame, target, found.value, Jump(f, frame, target));
      }
    }
  }

  lemma NoneNamed(f: Function, target: Target)
    requires FindBlock(f.blocks, target.block).None?
    ensures !exists block :: Names(f, target, block)
  {
  }

  lemma FoundIsNamed(f: Function, target: Target)
    requires FindBlock(f.blocks, target.block).Some?
    ensures Names(f, target, FindBlock(f.blocks, target.block).value)
  {
    var k := FindsFirst(f.blocks, target.block);
    assert f.blocks[k] == FindBlock(f.blocks, target.block).value;
  }

  // ----- terminators -----

  /** What the function gives back for a returned value. */
  ghost predicate Returns(f: Function, value: Value, c: Config) {
    c.control == Done(if f.returnsUnit then Unit else value)
  }

  /** A call again with the values of the registers, which must all be there. */
  ghost predicate Restarts(f: Function, frame: Frame, args: seq<ValueId>, next: Config) {
    if exists a :: a in args && a !in frame.values then
      next.control.Failed? && next.control.error.ValueUndefined? &&
      FirstMissing(frame.values, args, next.control.error.id)
    else exists values: seq<Value> ::
      && |values| == |args|
      && (forall i :: 0 <= i < |args| ==> args[i] in frame.values && values[i] == frame.values[args[i]])
      && IsEntry(f, values, next)
  }

  lemma TailCallRestarts(f: Function, frame: Frame, args: seq<ValueId>)
    ensures Restarts(f, frame, args, Terminate(f, frame, TailCall(args)))
  {
    hide Enter, LookupAll, FirstMissing, IsEntry;
    var bound := LookupAll(frame.values, args);
    if bound.Err? {
      LookupStopsFirst(frame.values, args);
    } else {
      EntryBinds(f, bound.value);
    }
  }

  /** Where a block's end leads: a true condition to the first target, a false one to the second. */
  lemma TerminateMeans(f: Function, frame: Frame, t: Terminator)
    ensures var next := Terminate(f, frame, t);
            match t
            case Branch(target) => Follows(f, frame, target, next)
            case CondBranch(cond, thenTarget, elseTarget) =>
              if cond !in frame.values then next.control == Failed(ValueUndefined(cond))
              else if frame.values[cond] == Bool(true) then Follows(f, frame, thenTarget, next)
              else if frame.values[cond] == Bool(false) then Follows(f, frame, elseTarget, next)
              else next.control == Failed(ConditionMismatch)
            case Return(None) => Returns(f, Unit, next)
            case Return(Some(id)) =>
              if id in frame.values then Returns(f, frame.values[id], next)
              else next.control == Failed(ValueUndefined(id))
            case TailCall(args) => Restarts(f, frame, args, next)
            case Unreachable => next.control == Failed(UnreachableExecuted)
  {
    hide Jump, Follows, Restarts, Enter, LookupAll;
    match t
    case Branch(target) => JumpFollows(f, frame, target);
    case CondBranch(_, thenTarget, elseTarget) =>
      JumpFollows(f, frame, thenTarget);
      JumpFollows(f, frame, elseTarget);
    case TailCall(args) => TailCallRestarts(f, frame, args);
    case _ =>
  }

  // ----- instructions -----

  /** Registers other than `id` are as they were, save that those in `gone` are gone. */
  ghost predicate OthersKept(before: map<nat, Value>, after: map<nat, Value>, id: nat, gone: set<nat>) {
    && (forall v :: v != id ==> (v in after <==> v in before && v !in gone))
    && (forall v :: v != id && v in before && v !in gone ==> after[v] == before[v])
  }

  /** The instruction has given `dest` the value and changed nothing else, save for taking out those in `gone`. */
  ghost predicate Gives(
    before: Frame, r: Result<Frame, RuntimeError>, dest: ValueId, value: Value, gone: set<ValueId>) {
    && r.Ok? && r.value.locals == before.locals
    && dest in r.value.values && r.value.values[dest] == value
    && OthersKept(before.values, r.value.values, dest, gone)
  }

  /** The instruction has given the local the value and changed nothing else. */
  ghost predicate Stores(before: Frame, r: Result<Frame, RuntimeError>, local: LocalId, value: Value) {
    && r.Ok? && r.value.values == before.values
    && local in r.value.locals && r.value.locals[local] == value
    && OthersKept(before.locals, r.value.locals, local, {})
  }

  /** What each instruction does to the frame, operands read in the order that decides which error is reported. */
  lemma ExecuteMeans(i: Instruction, f: Frame, moves: bool)
    ensures var r := Execute(i, f, moves);
            match i
            case Const(dest, value) => Gives(f, r, dest, value, {})
            case LocalDecl(local) => Stores(f, r, local, Unit)
            case LocalRead(dest, local) =>
              if local in f.locals then Gives(f, r, dest, f.locals[local], {}) else r == Err(SealViolation)
            case LocalWrite(local, source) =>
              if source in f.values then Stores(f, r, local, f.values[source]) else r == Err(ValueUndefined(source))
            case ConsumeLocal(local) => Stores(f, r, local, Unit)
            case Clone(dest, source) =>
              if source in f.values then Gives(f, r, dest, f.values[source], {}) else r == Err(ValueUndefined(source))
            case Append(consumes, dest, kind, lhs, rhs) =>
              if rhs !in f.values then r == Err(ValueUndefined(rhs))
              else if lhs !in f.values then r == Err(ValueUndefined(lhs))
              else if Concat(kind, f.values[lhs], f.values[rhs]).Err? then r == Err(ConcatMismatch)
              else Gives(f, r, dest, Concat(kind, f.values[lhs], f.values[rhs]).value,
                         if consumes && moves then {lhs} else {})
            case BinaryOp(dest, op, ty, lhs, rhs) =>
              if lhs !in f.values then r == Err(ValueUndefined(lhs))
              else if rhs !in f.values then r == Err(ValueUndefined(rhs))
              else
                var result := ApplyBinaryOp(op, ty, f.values[lhs], f.values[rhs]);
                if result.Err? then r == Err(result.error) else Gives(f, r, dest, result.value, {})
            case DropLocal(_) => r == Ok(f)
            case DropValue(_) => r == Ok(f)
  {
    hide ApplyBinaryOp;
    if i.Append? && i.lhs in f.values && i.rhs in f.values {
      ConcatFailsByMismatch(i.kind, f.values[i.lhs], f.values[i.rhs]);
    }
  }

  /** What counts as an operand is needed: without it an instruction fails, and so does leaving the frame. */
  lemma OperandsAreNeeded(i: Instruction, t: Terminator, fn: Function, f: Frame, moves: bool, v: ValueId)
    requires v !in f.values
    ensures Uses(i, v) && !i.DropValue? ==> Execute(i, f, moves).Err?
    ensures TerminatorUses(t, v) && (t.Return? || t.TailCall?) ==> Terminate(fn, f, t).control.Failed?
  {
    hide Concat, ApplyBinaryOp, Jump, Enter;
  }
}
