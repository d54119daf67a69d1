/**
 Moving registers out at consuming sites is exactly copying, whenever every
 consumed operand is dead after its site. Deadness is any assignment a liveness
 analysis could produce: it only has to be consistent with the block graph.
 */
module Liveness {
  import opened Values
  import opened Program
  import opened PureMachine
  import opened Simulation
  import opened RcHeap
  import opened RcControl
  import opened RcRuns
  import opened Wrappers

  /** Whether the register may be taken for dead before instruction `pc` of the block. */
  type Deadness = (Block, nat, ValueId) -> bool

  function Targets(t: Terminator): seq<Target> {
    match t
    case Branch(target) => [target]
    case CondBranch(_, thenTarget, elseTarget) => [thenTarget, elseTarget]
    case _ => []
  }

  /** The edge rebinds the register, or it is dead where the edge leads. */
  ghost predicate DeadAcross(f: Function, dead: Deadness, t: Target, v: ValueId) {
    var found := FindBlock(f.blocks, t.block);
    found.Some? ==> v in found.value.params || dead(found.value, 0, v)
  }

  /** Nothing reads the register here, and it is redefined here or stays dead. */
  ghost predicate DeadHere(f: Function, dead: Deadness, b: Block, pc: nat, v: ValueId)
    requires pc <= |b.instructions|
  {
    if pc < |b.instructions| then !Uses(b.instructions[pc], v) && (Defines(b.instructions[pc], v) || dead(b, pc + 1, v))
    else !TerminatorUses(b.terminator, v) && forall t :: t in Targets(b.terminator) ==> DeadAcross(f, dead, t, v)
  }

  ghost predicate Consistent(f: Function, dead: Deadness) {
    forall b: Block, pc: nat, v: ValueId {:trigger dead(b, pc, v)} ::
      b in f.blocks && pc <= |b.instructions| && dead(b, pc, v) ==> DeadHere(f, dead, b, pc, v)
  }

  predicate Consuming(i: Instruction) {
    i.Append? && i.consumesLhs
  }

  /** What lowering promises of a consuming concatenation: its left operand is dead after it. */
  ghost predicate ConsumesDead(f: Function, dead: Deadness) {
    forall b, k {:trigger b.instructions[k]} ::
      b in f.blocks && 0 <= k < |b.instructions| && Consuming(b.instructions[k]) ==>
      Defines(b.instructions[k], b.instructions[k].lhs) || dead(b, k + 1, b.instructions[k].lhs)
  }

  /** Same point; only dead registers are missing from `a`. */
  ghost predicate Mirrors(dead: Deadness, a: Config, b: Config) {
    && Trails(a, b)
    && (a.control.At? ==> forall v :: v in b.frame.values && v !in a.frame.values ==>
       dead(a.control.block, a.control.pc, v))
  }

  // ----- one instruction -----

  lemma ExecuteMoves(i: Instruction, a: Frame, b: Frame)
    requires Within(a, b)
    requires forall v :: Uses(i, v) && v in b.values ==> v in a.values
    ensures var x, y := Execute(i, a, true), Execute(i, b, false);
            && (x.Err? <==> y.Err?) && (x.Err? ==> x == y)
            && (x.Ok? ==> Within(x.value, y.value) && forall v :: v in y.value.values && v !in x.value.values ==>
                  !Defines(i, v) && ((v in b.values && v !in a.values) || (Consuming(i) && v == i.lhs)))
  {
    match i
    case LocalWrite(_, source) => assert Uses(i, source);
    case Clone(_, source) => assert Uses(i, source);
    case Append(_, _, _, lhs, rhs) => assert Uses(i, lhs) && Uses(i, rhs);
    case BinaryOp(_, _, _, lhs, rhs) => assert Uses(i, lhs) && Uses(i, rhs);
    case _ =>
  }

  lemma InstructionMirrors(f: Function, dead: Deadness, a: Config, b: Config)
    requires Consistent(f, dead) && ConsumesDead(f, dead) && Mirrors(dead, a, b)
    requires a.control.At? && a.control.block in f.blocks && a.control.pc < |a.control.block.instructions|
    ensures Mirrors(dead, Step(f, a, true), Step(f, b, false))
  {
    hide Execute, Terminate;
    var block, pc := a.control.block, a.control.pc;
    var i := block.instructions[pc];
    forall v | v in b.frame.values && v !in a.frame.values ensures DeadHere(f, dead, block, pc, v) {
      assert dead(block, pc, v);
    }
    ExecuteMoves(i, a.frame, b.frame);
    var x, y := Step(f, a, true), Step(f, b, false);
    if x.control.At? {
      forall v | v in y.frame.values && v !in x.frame.values ensures dead(block, pc + 1, v) {
        if !(v in b.frame.values && v !in a.frame.values) {
          assert Consuming(block.instructions[pc]);
        }
      }
    }
  }

  // ----- the terminator -----

  lemma {:induction false} BindAllHas(values: Registers, names: seq<ValueId>, bound: seq<Value>, v: ValueId)
    requires |names| == |bound| && v in names
    ensures v in BindAll(values, names, bound)
  {
    BindAllLast(values, names, bound);
    hide BindAll;
    var n := |names| - 1;
    if v != names[n] {
      assert v in names[..n];
      BindAllHas(values, names[..n], bound[..n], v);
    }
  }

  lemma BindAllMissing(a: Registers, b: Registers, names: seq<ValueId>, bound: seq<Value>, v: ValueId)
    requires |names| == |bound| && v in BindAll(b, names, bound) && v !in BindAll(a, names, bound)
    ensures v !in names && v in b && v !in a
  {
    hide BindAll;
    if v in names {
      BindAllHas(a, names, bound, v);
      assert false;
    }
    BindAllKeeps(a, names, bound, v);
    BindAllKeeps(b, names, bound, v);
  }

  lemma JumpMirrors(f: Function, dead: Deadness, a: Frame, b: Frame, target: Target)
    requires Within(a, b)
    requires forall v :: v in b.values && v !in a.values ==> v !in target.args && DeadAcross(f, dead, target, v)
    ensures Mirrors(dead, Jump(f, a, target), Jump(f, b, target))
  {
    hide BindAll;
    LookupAllWithin(a.values, b.values, target.args);
    var found, bound := FindBlock(f.blocks, target.block), LookupAll(a.values, target.args);
    if found.Some? && |target.args| == |found.value.params| && bound.Ok? {
      BindAllWithin(a.values, b.values, found.value.params, bound.value);
      var x, y := Jump(f, a, target), Jump(f, b, target);
      forall v | v in y.frame.values && v !in x.frame.values ensures dead(found.value, 0, v) {
        BindAllMissing(a.values, b.values, found.value.params, bound.value, v);
      }
    }
  }

  lemma TerminatorMirrors(f: Function, dead: Deadness, a: Frame, b: Frame, t: Terminator)
    requires Within(a, b)
    requires forall v :: v in b.values && v !in a.values ==>
      !TerminatorUses(t, v) && forall e :: e in Targets(t) ==> DeadAcross(f, dead, e, v)
    ensures Mirrors(dead, Terminate(f, a, t), Terminate(f, b, t))
  {
    hide Jump, DeadAcross, Enter;
    match t
    case Branch(target) =>
      assert target in Targets(t);
      JumpMirrors(f, dead, a, b, target);
    case CondBranch(cond, thenTarget, elseTarget) =>
      assert TerminatorUses(t, cond) && thenTarget in Targets(t) && elseTarget in Targets(t);
      JumpMirrors(f, dead, a, b, thenTarget);
      JumpMirrors(f, dead, a, b, elseTarget);
    case Return(_) => ExitSame(f, a, b, t);
    case TailCall(_) => ExitSame(f, a, b, t);
    case Unreachable =>
  }

  lemma StepMirrors(f: Function, dead: Deadness, a: Config, b: Config)
    requires Consistent(f, dead) && ConsumesDead(f, dead) && InProgram(f, a) && Mirrors(dead, a, b)
    ensures Mirrors(dead, Step(f, a, true), Step(f, b, false))
  {
    hide Execute, Terminate, ConsumesDead;
    if a.control.At? {
      var block, pc := a.control.block, a.control.pc;
      if pc < |block.instructions| {
        InstructionMirrors(f, dead, a, b);
      } else {
        forall v | v in b.frame.values && v !in a.frame.values ensures DeadHere(f, dead, block, pc, v) {
          assert dead(block, pc, v);
        }
        TerminatorMirrors(f, dead, a.frame, b.frame, block.terminator);
      }
    }
  }

  // ----- whole runs -----

  /** Moving out registers that are dead anyway changes no run. */
  lemma {:induction false} MovingIsCopying(f: Function, dead: Deadness, c: Config, steps: nat)
    requires Consistent(f, dead) && ConsumesDead(f, dead) && InProgram(f, c)
    ensures Mirrors(dead, Run(f, c, true, steps), Run(f, c, false, steps)) && InProgram(f, Run(f, c, true, steps))
  {
    hide Step, Consistent, ConsumesDead;
    if steps > 0 {
      MovingIsCopying(f, dead, c, steps - 1);
      StepMirrors(f, dead, Run(f, c, true, steps - 1), Run(f, c, false, steps - 1));
      StepInProgram(f, Run(f, c, true, steps - 1), true);
    }
  }

  /**
   In a sealed function whose consumed operands are dead, a call over shared
   buffers is at every moment where the call over plain copied values is, with
   the same result or the same error, unless a concatenation is mistyped. It
   misses no register that copying does not miss.
   */
  lemma SharingIsCopying(
    f: Function, dead: Deadness, m: Mem, args: seq<Handle>, held: multiset<Loc>, release: bool, steps: nat)
    requires Callable(f, m, args, held) && Sealed(f) && Consistent(f, dead) && ConsumesDead(f, dead)
    ensures var q := PlainCall(f, Meanings(m.cells, args), false, steps);
            HProgress(Call(f, m, args, release, steps)) == PlainProgress(q) || Mistyped(q)
  {
    hide Callable, Sealed, Consistent, ConsumesDead, HRun, Run, HEnter;
    var values := Meanings(m.cells, args);
    MovingIsCopying(f, dead, Enter(f, values), steps);
    EarlyReleaseIsSafe(f, m, args, held, steps);
  }
}
