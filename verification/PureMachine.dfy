/**
 The meaning of a function body: a machine over plain values, with nothing
 shared and nothing changed in place. `moves` says whether a consuming
 concatenation takes its left register out of the frame.
 */
module PureMachine {
  import opened Values
  import opened IntOps
  import opened Program
  import opened Wrappers

  type Registers = map<ValueId, Value>

  datatype Frame = Frame(values: Registers, locals: map<LocalId, Value>)

  function Lookup(values: Registers, id: ValueId): Result<Value, RuntimeError> {
    if id in values then Ok(values[id]) else Err(ValueUndefined(id))
  }

  function LookupAll<T>(values: map<ValueId, T>, ids: seq<ValueId>): (r: Result<seq<T>, RuntimeError>)
    ensures r.Ok? ==> |r.value| == |ids| && forall i :: 0 <= i < |ids| ==>
            ids[i] in values && r.value[i] == values[ids[i]]
    ensures r.Err? ==> r.error.ValueUndefined? && r.error.id in ids && r.error.id !in values
  {
    if ids == [] then Ok([])
    else if ids[0] !in values then Err(ValueUndefined(ids[0]))
    else
      var rest := LookupAll(values, ids[1..]);
      if rest.Err? then rest else Ok([values[ids[0]]] + rest.value)
  }

  function Define(f: Frame, dest: ValueId, value: Value): Frame {
    Frame(f.values[dest := value], f.locals)
  }

  /** One instruction over values. */
  function Execute(i: Instruction, f: Frame, moves: bool): Result<Frame, RuntimeError> {
    match i
    case Const(dest, value) => Ok(Define(f, dest, value))
    case LocalDecl(local) => Ok(Frame(f.values, f.locals[local := Unit]))
    case LocalRead(dest, local) =>
      if local in f.locals then Ok(Define(f, dest, f.locals[local])) else Err(SealViolation)
    case LocalWrite(local, source) =>
      if source in f.values
        then Ok(Frame(f.values, f.locals[local := f.values[source]])) else Err(ValueUndefined(source))
    case ConsumeLocal(local) => Ok(Frame(f.values, f.locals[local := Unit]))
    case Clone(dest, source) =>
      if source in f.values then Ok(Define(f, dest, f.values[source])) else Err(ValueUndefined(source))
    case Append(consumes, dest, kind, lhs, rhs) =>
      if rhs !in f.values then Err(ValueUndefined(rhs))
      else if lhs !in f.values then Err(ValueUndefined(lhs))
      else
        var joined := Concat(kind, f.values[lhs], f.values[rhs]);
        if joined.Err? then Err(joined.error)
        else Ok(Define(if consumes && moves then Frame(f.values - {lhs}, f.locals) else f, dest, joined.value))
    case BinaryOp(dest, op, ty, lhs, rhs) =>
      if lhs !in f.values then Err(ValueUndefined(lhs))
      else if rhs !in f.values then Err(ValueUndefined(rhs))
      else
        var result := ApplyBinaryOp(op, ty, f.values[lhs], f.values[rhs]);
        if result.Err? then Err(result.error) else Ok(Define(f, dest, result.value))
    case DropLocal(_) => Ok(f)
    case DropValue(_) => Ok(f)
  }

  // ----- control -----

  datatype Control = At(block: Block, pc: nat) | Done(value: Value) | Failed(error: RuntimeError)

  datatype Config = Config(frame: Frame, control: Control)

  function CoerceReturn(f: Function, value: Value): Value {
    if f.returnsUnit then Unit else value
  }

  /** Bind names to values, first to last. */
  function BindAll(values: Registers, names: seq<ValueId>, bound: seq<Value>): Registers
    requires |names| == |bound|
  {
    if names == [] then values
    else BindAll(values, names[..|names| - 1], bound[..|bound| - 1])[names[|names| - 1] := bound[|bound| - 1]]
  }

  function Min(a: nat, b: nat): nat {
    if a < b then a else b
  }

  /** A fresh frame with the arguments bound to the parameters. */
  function EntryFrame(f: Function, args: seq<Value>): Frame {
    var n := Min(|f.params|, |args|);
    Frame(BindAll(map[], f.params[..n], args[..n]), map[])
  }

  function Enter(f: Function, args: seq<Value>): Config {
    Config(EntryFrame(f, args), if f.blocks == [] then Failed(SealViolation) else At(f.blocks[0], 0))
  }

  /** Follow a branch edge, rebinding the target's parameters. */
  function Jump(f: Function, frame: Frame, target: Target): Config {
    var found := FindBlock(f.blocks, target.block);
    if found.None? || |target.args| != |found.value.params| then Config(frame, Failed(SealViolation))
    else
      var bound := LookupAll(frame.values, target.args);
      if bound.Err? then Config(frame, Failed(bound.error))
      else Config(Frame(BindAll(frame.values, found.value.params, bound.value), frame.locals), At(found.value, 0))
  }

  function Terminate(f: Function, frame: Frame, t: Terminator): Config {
    match t
    case Branch(target) => Jump(f, frame, target)
    case CondBranch(cond, thenTarget, elseTarget) =>
      if cond !in frame.values then Config(frame, Failed(ValueUndefined(cond)))
      else if !frame.values[cond].Bool? then Config(frame, Failed(ConditionMismatch))
      else Jump(f, frame, if frame.values[cond].truth then thenTarget else elseTarget)
    case Return(None) => Config(frame, Done(CoerceReturn(f, Unit)))
    case Return(Some(id)) =>
      if id in frame.values
        then Config(frame, Done(CoerceReturn(f, frame.values[id]))) else Config(frame, Failed(ValueUndefined(id)))
    case TailCall(args) =>
      var bound := LookupAll(frame.values, args);
      if bound.Err? then Config(frame, Failed(bound.error)) else Enter(f, bound.value)
    case Unreachable => Config(frame, Failed(UnreachableExecuted))
  }

  /** One instruction or one terminator. */
  function Step(f: Function, c: Config, moves: bool): Config {
    match c.control
    case At(block, pc) =>
      if pc < |block.instructions| then
        var next := Execute(block.instructions[pc], c.frame, moves);
        if next.Err? then Config(c.frame, Failed(next.error)) else Config(next.value, At(block, pc + 1))
      else Terminate(f, c.frame, block.terminator)
    case _ => c
  }

  function Run(f: Function, c: Config, moves: bool, steps: nat): Config
    decreases steps
  {
    if steps == 0 then c else Step(f, Run(f, c, moves, steps - 1), moves)
  }

  /** Running on from a finished configuration changes nothing. */
  lemma {:induction false} RunStays(f: Function, c: Config, moves: bool, steps: nat)
    requires !c.control.At?
    ensures Run(f, c, moves, steps) == c
  {
    if steps > 0 {
      RunStays(f, c, moves, steps - 1);
    }
  }

  lemma {:induction false} RunAdds(f: Function, c: Config, moves: bool, a: nat, b: nat)
    ensures Run(f, Run(f, c, moves, a), moves, b) == Run(f, c, moves, a + b)
  {
    if b > 0 {
      RunAdds(f, c, moves, a, b - 1);
    }
  }

  // ----- parallel assignment on branch edges -----

  lemma BindAllLast(values: Registers, names: seq<ValueId>, bound: seq<Value>)
    requires |names| == |bound| > 0
    ensures var n := |names| - 1;
            BindAll(values, names, bound) == BindAll(values, names[..n], bound[..n])[names[n] := bound[n]]
  {
  }

  /** A register that is no parameter keeps its value. */
  lemma {:induction false} BindAllKeeps(values: Registers, names: seq<ValueId>, bound: seq<Value>, v: ValueId)
    requires |names| == |bound| && v !in names
    ensures v in BindAll(values, names, bound) <==> v in values
    ensures v in values ==> BindAll(values, names, bound)[v] == values[v]
  {
    if names != [] {
      BindAllLast(values, names, bound);
      hide BindAll;
      BindAllKeeps(values, names[..|names| - 1], bound[..|names| - 1], v);
    }
  }

  lemma LaterNames(names: seq<ValueId>, i: nat)
    requires i < |names| - 1
    ensures var n := |names| - 1;
            names[i + 1..] == names[..n][i + 1..] + [names[n]]
  {
  }

  /** Each parameter gets its own argument, the last one when a name repeats. */
  lemma {:induction false} BindAllSets(values: Registers, names: seq<ValueId>, bound: seq<Value>, i: nat)
    requires i < |names| == |bound| && names[i] !in names[i + 1..]
    ensures names[i] in BindAll(values, names, bound) && BindAll(values, names, bound)[names[i]] == bound[i]
  {
    var n := |names| - 1;
    BindAllLast(values, names, bound);
    hide BindAll;
    if i < n {
      LaterNames(names, i);
      BindAllSets(values, names[..n], bound[..n], i);
    }
  }

  /** A branch edge assigns in parallel: arguments that name rebound parameters read their old values. */
  lemma JumpIsParallel(f: Function, frame: Frame, target: Target, i: nat)
    requires FindBlock(f.blocks, target.block).Some?
    requires |target.args| == |FindBlock(f.blocks, target.block).value.params|
    requires forall a :: a in target.args ==> a in frame.values
    requires i < |target.args|
    ensures var params := FindBlock(f.blocks, target.block).value.params;
            var next := Jump(f, frame, target);
            && next.control == At(FindBlock(f.blocks, target.block).value, 0)
            && next.frame.locals == frame.locals
            && (params[i] !in params[i + 1..] ==>
               params[i] in next.frame.values && next.frame.values[params[i]] == frame.values[target.args[i]])
            && (forall v :: v !in params ==> (v in next.frame.values <==> v in frame.values))
            && (forall v :: v !in params && v in frame.values ==> next.frame.values[v] == frame.values[v])
  {
    hide BindAll;
    var params := FindBlock(f.blocks, target.block).value.params;
    LookupAllSucceeds(frame.values, target.args);
    var bound := LookupAll(frame.values, target.args);
    if params[i] !in params[i + 1..] {
      BindAllSets(frame.values, params, bound.value, i);
    }
    forall v ensures v !in params ==> (v in Jump(f, frame, target).frame.values <==> v in frame.values)
      ensures v !in params && v in frame.values ==> Jump(f, frame, target).frame.values[v] == frame.values[v]
    {
      if v !in params {
        BindAllKeeps(frame.values, params, bound.value, v);
      }
    }
  }

  lemma LookupAllSucceeds(values: Registers, ids: seq<ValueId>)
    requires forall a :: a in ids ==> a in values
    ensures LookupAll(values, ids).Ok?
  {
  }
}
