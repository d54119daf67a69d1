/**
 How a frame that has lost registers compares with one that kept them. A run
 that drops registers can only add "undefined" errors, and adds none when every
 register it drops is dead.
 */
module Simulation {
  import opened Values
  import opened Program
  import opened PureMachine
  import opened Wrappers

  /** `a` is `b` with some registers gone. */
  ghost predicate Within(a: Frame, b: Frame) {
    && a.locals == b.locals
    && forall v :: v in a.values ==> v in b.values && a.values[v] == b.values[v]
  }

  ghost predicate Undefined(c: Config) {
    c.control.Failed? && c.control.error.ValueUndefined?
  }

  /** Same point of the program, registers within. */
  ghost predicate Trails(a: Config, b: Config) {
    a.control == b.control && Within(a.frame, b.frame)
  }

  /** No instruction from `pc` on, nor the terminator, reads `v` before it is defined again or the frame ends. */
  ghost predicate DeadAt(b: Block, pc: nat, v: ValueId)
    requires pc <= |b.instructions|
  {
    || DefinedIn(b.instructions[pc..], v)
    || (Exits(b.terminator) && !UsedIn(b.instructions[pc..], v) && !TerminatorUses(b.terminator, v))
  }

  /** Same point of the program, and only dead registers are gone. */
  ghost predicate SameButDead(a: Config, b: Config) {
    && Trails(a, b)
    && (a.control.At? ==>
      && a.control.pc <= |a.control.block.instructions|
      && forall v :: v in b.frame.values && v !in a.frame.values ==> DeadAt(a.control.block, a.control.pc, v))
  }

  ghost predicate InProgram(f: Function, c: Config) {
    c.control.At? ==> c.control.block in f.blocks && c.control.pc <= |c.control.block.instructions|
  }

  lemma StepInProgram(f: Function, c: Config, moves: bool)
    requires InProgram(f, c)
    ensures InProgram(f, Step(f, c, moves))
  {
  }

  // ----- one instruction -----

  lemma ExecuteWithin(i: Instruction, a: Frame, b: Frame, moves: bool)
    requires Within(a, b)
    ensures var x, y := Execute(i, a, true), Execute(i, b, moves);
            && (x.Ok? ==> y.Ok? && Within(x.value, y.value))
            && (x.Err? && !x.error.ValueUndefined? ==> y == x)
  {
  }

  /** When nothing the instruction reads is gone, both frames take the same step. */
  lemma ExecuteSame(i: Instruction, a: Frame, b: Frame)
    requires Within(a, b)
    requires forall v :: Uses(i, v) && v in b.values ==> v in a.values
    ensures var x, y := Execute(i, a, true), Execute(i, b, true);
            && (x.Err? <==> y.Err?) && (x.Err? ==> x == y)
            && (x.Ok? ==> Within(x.value, y.value) && forall v :: v in y.value.values && v !in x.value.values ==>
                  v in b.values && v !in a.values && !Defines(i, v))
  {
    match i
    case LocalWrite(_, source) => assert Uses(i, source);
    case Clone(_, source) => assert Uses(i, source);
    case Append(_, _, _, lhs, rhs) => assert Uses(i, lhs) && Uses(i, rhs);
    case BinaryOp(_, _, _, lhs, rhs) => assert Uses(i, lhs) && Uses(i, rhs);
    case _ =>
  }

  lemma DeadIsUnread(b: Block, pc: nat, v: ValueId)
    requires DefinedBeforeUse(b) && pc < |b.instructions| && DeadAt(b, pc, v)
    ensures !Uses(b.instructions[pc], v)
  {
    assert b.instructions[pc..][0] == b.instructions[pc];
  }

  lemma DeadStaysDead(b: Block, pc: nat, v: ValueId)
    requires pc < |b.instructions| && DeadAt(b, pc, v) && !Defines(b.instructions[pc], v)
    ensures DeadAt(b, pc + 1, v)
  {
    var here, next := b.instructions[pc..], b.instructions[pc + 1..];
    assert next == here[1..];
    if DefinedIn(here, v) {
      var k :| 0 <= k < |here| && Defines(here[k], v);
      assert here[0] == b.instructions[pc];
      assert next[k - 1] == here[k];
    }
    assert forall k :: 0 <= k < |next| ==> next[k] == here[k + 1];
  }

  // ----- the terminator -----

  lemma {:induction false} LookupAllWithin(a: Registers, b: Registers, ids: seq<ValueId>)
    requires forall v :: v in a ==> v in b && a[v] == b[v]
    ensures LookupAll(a, ids).Ok? ==> LookupAll(b, ids) == LookupAll(a, ids)
    ensures (forall v :: v in ids && v in b ==> v in a) ==> LookupAll(b, ids) == LookupAll(a, ids)
  {
    if ids != [] {
      LookupAllWithin(a, b, ids[1..]);
    }
  }

  lemma BindAllWithin(a: Registers, b: Registers, names: seq<ValueId>, bound: seq<Value>)
    requires |names| == |bound| && forall v :: v in a ==> v in b && a[v] == b[v]
    ensures forall v :: v in BindAll(a, names, bound) ==>
      v in BindAll(b, names, bound) && BindAll(a, names, bound)[v] == BindAll(b, names, bound)[v]
  {
    if names != [] {
      BindAllWithin(a, b, names[..|names| - 1], bound[..|bound| - 1]);
    }
  }

  lemma JumpTrails(f: Function, a: Frame, b: Frame, target: Target)
    requires Within(a, b)
    ensures Undefined(Jump(f, a, target)) || Trails(Jump(f, a, target), Jump(f, b, target))
  {
    LookupAllWithin(a.values, b.values, target.args);
    var found, bound := FindBlock(f.blocks, target.block), LookupAll(a.values, target.args);
    if found.Some? && |target.args| == |found.value.params| && bound.Ok? {
      BindAllWithin(a.values, b.values, found.value.params, bound.value);
    }
  }

  lemma TerminateTrails(f: Function, a: Frame, b: Frame, t: Terminator)
    requires Within(a, b)
    ensures Undefined(Terminate(f, a, t)) || Trails(Terminate(f, a, t), Terminate(f, b, t))
  {
    match t
    case Branch(target) => JumpTrails(f, a, b, target);
    case CondBranch(cond, thenTarget, elseTarget) =>
      JumpTrails(f, a, b, thenTarget);
      JumpTrails(f, a, b, elseTarget);
    case TailCall(args) => LookupAllWithin(a.values, b.values, args);
    case _ =>
  }

  /** At the end of a block that branches nothing is dead, so nothing is gone. */
  lemma NothingGone(c: Config, d: Config)
    requires SameButDead(c, d) && c.control.At? && c.control.pc == |c.control.block.instructions|
    requires !Exits(c.control.block.terminator)
    ensures c == d
  {
    var b := c.control.block;
    assert b.instructions[c.control.pc..] == [];
    assert c.frame.values.Keys == d.frame.values.Keys;
  }

  lemma ExitSame(f: Function, a: Frame, b: Frame, t: Terminator)
    requires Within(a, b) && Exits(t)
    requires forall v :: TerminatorUses(t, v) && v in b.values ==> v in a.values
    ensures var x, y := Terminate(f, a, t), Terminate(f, b, t);
            Trails(x, y) && (x.control.At? ==> x == y)
  {
    match t
    case Return(None) =>
    case Return(Some(id)) => assert TerminatorUses(t, id);
    case TailCall(args) =>
      assert forall v :: v in args ==> TerminatorUses(t, v);
      LookupAllWithin(a.values, b.values, args);
  }

  // ----- whole steps -----

  /** A step from fewer registers matches the step from more, or misses a register. */
  lemma StepTrails(f: Function, a: Config, b: Config, moves: bool)
    requires Trails(a, b)
    ensures Undefined(Step(f, a, true)) || Trails(Step(f, a, true), Step(f, b, moves))
  {
    if a.control.At? {
      if a.control.pc < |a.control.block.instructions| {
        ExecuteWithin(a.control.block.instructions[a.control.pc], a.frame, b.frame, moves);
      } else {
        TerminateTrails(f, a.frame, b.frame, a.control.block.terminator);
      }
    }
  }

  lemma InstructionSame(f: Function, a: Config, b: Config)
    requires SameButDead(a, b) && a.control.At? && a.control.pc < |a.control.block.instructions|
    requires DefinedBeforeUse(a.control.block)
    ensures SameButDead(Step(f, a, true), Step(f, b, true))
  {
    var block, pc := a.control.block, a.control.pc;
    var i := block.instructions[pc];
    forall v | Uses(i, v) && v in b.frame.values ensures v in a.frame.values {
      if v !in a.frame.values {
        DeadIsUnread(block, pc, v);
        assert false;
      }
    }
    ExecuteSame(i, a.frame, b.frame);
    var x, y := Step(f, a, true), Step(f, b, true);
    if x.control.At? {
      forall v | v in y.frame.values && v !in x.frame.values ensures DeadAt(block, pc + 1, v) {
        DeadStaysDead(block, pc, v);
      }
    }
  }

  lemma TerminatorSame(f: Function, a: Config, b: Config)
    requires SameButDead(a, b) && a.control.At? && a.control.pc == |a.control.block.instructions|
    ensures SameButDead(Step(f, a, true), Step(f, b, true))
  {
    var block := a.control.block;
    assert block.instructions[a.control.pc..] == [];
    if Exits(block.terminator) {
      ExitSame(f, a.frame, b.frame, block.terminator);
    } else {
      NothingGone(a, b);
    }
  }

  /** In a sealed function, losing dead registers changes no step. */
  lemma StepSame(f: Function, a: Config, b: Config)
    requires Sealed(f) && InProgram(f, a) && SameButDead(a, b)
    ensures SameButDead(Step(f, a, true), Step(f, b, true))
  {
    if a.control.At? {
      if a.control.pc < |a.control.block.instructions| {
        InstructionSame(f, a, b);
      } else {
        TerminatorSame(f, a, b);
      }
    }
  }

  /** Dropping dead registers between steps. */
  lemma ReleaseSame(a: Config, b: Config, released: set<ValueId>)
    requires SameButDead(a, b) && a.control.At?
    requires forall v :: v in released ==> DeadAt(a.control.block, a.control.pc, v)
    ensures SameButDead(Config(Frame(a.frame.values - released, a.frame.locals), a.control), b)
  {
  }

  /** Whole runs: moving registers out can only lose a register, never change a value. */
  lemma {:induction false} MovingRunTrails(f: Function, c: Config, steps: nat)
    ensures Undefined(Run(f, c, true, steps)) || Trails(Run(f, c, true, steps), Run(f, c, false, steps))
  {
    if steps > 0 {
      MovingRunTrails(f, c, steps - 1);
      if !Undefined(Run(f, c, true, steps - 1)) {
        StepTrails(f, Run(f, c, true, steps - 1), Run(f, c, false, steps - 1), false);
      }
    }
  }

  // ----- the tail-call trampoline -----

  /**
   The recursive reading of a tail call: call the function again, and return
   what it returns. `None` stands for a run cut off after `steps` steps.
   */
  function Recursive(f: Function, c: Config, moves: bool, steps: nat): Option<Result<Value, RuntimeError>>
    decreases steps
  {
    match c.control
    case Done(value) => Some(Ok(value))
    case Failed(error) => Some(Err(error))
    case At(block, pc) =>
      if steps == 0 then None
      else if pc >= |block.instructions| && block.terminator.TailCall? &&
        LookupAll(c.frame.values, block.terminator.args).Ok? then
        var args := LookupAll(c.frame.values, block.terminator.args).value;
        match Recursive(f, Enter(f, args), moves, steps - 1)
        case Some(Ok(value)) => Some(Ok(CoerceReturn(f, value)))
        case other => other
      else Recursive(f, Step(f, c, moves), moves, steps - 1)
  }

  /** The outcome of the looping machine after `steps` steps. */
  function Looping(f: Function, c: Config, moves: bool, steps: nat): Option<Result<Value, RuntimeError>> {
    match Run(f, c, moves, steps).control
    case Done(value) => Some(Ok(value))
    case Failed(error) => Some(Err(error))
    case At(_, _) => None
  }

  lemma RunFirst(f: Function, c: Config, moves: bool, steps: nat)
    requires steps > 0
    ensures Run(f, c, moves, steps) == Run(f, Step(f, c, moves), moves, steps - 1)
  {
    RunAdds(f, c, moves, 1, steps - 1);
    assert Run(f, c, moves, 1) == Step(f, Run(f, c, moves, 0), moves);
  }

  /** What a run returns has already been coerced. */
  lemma {:induction false} ReturnedIsCoerced(f: Function, c: Config, moves: bool, steps: nat)
    requires c.control.Done? ==> CoerceReturn(f, c.control.value) == c.control.value
    ensures var last := Run(f, c, moves, steps);
            last.control.Done? ==> CoerceReturn(f, last.control.value) == last.control.value
  {
    if steps > 0 {
      ReturnedIsCoerced(f, c, moves, steps - 1);
    }
  }

  /** Looping on restarts returns what calling recursively and returning would. */
  lemma {:induction false} TrampolinePreservesMeaning(f: Function, c: Config, moves: bool, steps: nat)
    requires c.control.Done? ==> CoerceReturn(f, c.control.value) == c.control.value
    ensures Recursive(f, c, moves, steps) == Looping(f, c, moves, steps)
    decreases steps
  {
    if !c.control.At? {
      RunStays(f, c, moves, steps);
    } else if steps > 0 {
      RunFirst(f, c, moves, steps);
      TrampolinePreservesMeaning(f, Step(f, c, moves), moves, steps - 1);
      ReturnedIsCoerced(f, Step(f, c, moves), moves, steps - 1);
    }
  }
}
