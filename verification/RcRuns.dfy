/**
 Whole runs over shared buffers. Extending buffers in place, moving registers
 out and releasing dead ones early cannot be told from copying everything.
 */
module RcRuns {
  import opened Values
  import opened Program
  import opened PureMachine
  import opened Simulation
  import opened RcHeap
  import opened RcMachine
  import opened RcRelease
  import opened RcControl
  import opened Wrappers

  /** Release before the instruction about to execute. */
  function Freed(c: HConfig): HConfig {
    match c.control
    case HAt(block, pc) =>
      if pc < |block.instructions|
        then HConfig(Released(c.mem, block.instructions[pc..], block.terminator), c.control) else c
    case _ => c
  }

  /** One instruction or one terminator. */
  function Advance(f: Function, c: HConfig): HConfig {
    match c.control
    case HAt(block, pc) =>
      if pc < |block.instructions| then
        var next := HExecute(block.instructions[pc], c.mem);
        if next.Err? then HFail(c.mem, next.error) else HConfig(next.value, HAt(block, pc + 1))
      else HTerminate(f, c.mem, block.terminator)
    case _ => c
  }

  function HStep(f: Function, c: HConfig, release: bool): HConfig {
    Advance(f, if release then Freed(c) else c)
  }

  function HRun(f: Function, c: HConfig, release: bool, steps: nat): HConfig
    decreases steps
  {
    if steps == 0 then c else HStep(f, HRun(f, c, release, steps - 1), release)
  }

  // ----- one step -----

  ghost predicate Inside(f: Function, c: HConfig) {
    c.control.HAt? ==> c.control.block in f.blocks && c.control.pc <= |c.control.block.instructions|
  }

  lemma FreedKeeps(f: Function, c: HConfig, held: multiset<Loc>, callers: map<nat, Value>)
    requires Sound(c, held, callers) && Inside(f, c)
    ensures Sound(Freed(c), held, callers) && Inside(f, Freed(c)) && Freed(c).control == c.control
  {
    hide Good, Released, ReleasedIds;
    if c.control.HAt? && c.control.pc < |c.control.block.instructions| {
      ReleasedBecomes(c.mem, c.control.block.instructions[c.control.pc..], c.control.block.terminator);
    }
  }

  lemma HTerminateInside(f: Function, m: Mem, t: Terminator)
    ensures Inside(f, HConfig(m, HTerminate(f, m, t).control))
  {
  }

  /** The frame a configuration inside a block stands for, at that block. */
  function Plain(c: HConfig): Config
    requires c.control.HAt?
  {
    Config(FrameOf(c.mem), At(c.control.block, c.control.pc))
  }

  /** A step keeps the counts exact and the callers' bindings as they were, whatever the program does. */
  lemma AdvanceKeeps(f: Function, c: HConfig, held: multiset<Loc>, callers: map<nat, Value>)
    requires CanonicalConstants(f) && Inside(f, c) && Sound(c, held, callers)
    ensures Sound(Advance(f, c), held, callers) && Inside(f, Advance(f, c))
  {
    hide Good, HExecute, HTerminate, FrameDropped;
    if c.control.HAt? {
      var block, pc := c.control.block, c.control.pc;
      if pc < |block.instructions| {
        ExecuteRefines(block.instructions[pc], c.mem);
        if HExecute(block.instructions[pc], c.mem).Err? {
          FailSound(c.mem, HExecute(block.instructions[pc], c.mem).error);
        }
      } else {
        TerminateRefines(f, c.mem, block.terminator);
        HTerminateInside(f, c.mem, block.terminator);
      }
    }
  }

  /** A step over shared buffers is the step over plain values, unless that one reports mistyped operands. */
  lemma AdvanceRefines(f: Function, c: HConfig)
    requires CanonicalConstants(f) && Inside(f, c) && c.control.HAt? && Good(c.mem)
    ensures var p := Step(f, Plain(c), true);
            StandsFor(Advance(f, c), p) || p.control == Failed(ConcatMismatch)
  {
    hide Good, HExecute, Execute, HTerminate, Terminate, FrameDropped;
    var block, pc := c.control.block, c.control.pc;
    if pc < |block.instructions| {
      ExecuteRefines(block.instructions[pc], c.mem);
    } else {
      TerminateRefines(f, c.mem, block.terminator);
    }
  }

  // ----- comparing with a run over plain values -----

  ghost predicate HUndefined(c: HConfig) {
    c.control.HFailed? && c.control.error.ValueUndefined?
  }

  /** Same point and outcome; registers may be missing. */
  ghost predicate HTrails(c: HConfig, p: Config) {
    match c.control
    case HAt(_, _) => Trails(Plain(c), p)
    case HDone(h) => p.control == Done(Denote(c.mem.cells, h))
    case HFailed(e) => p.control == Failed(e)
  }

  /** Same point and outcome; only dead registers are missing. */
  ghost predicate HSame(c: HConfig, p: Config) {
    match c.control
    case HAt(_, _) => SameButDead(Plain(c), p)
    case _ => HTrails(c, p)
  }

  ghost predicate Mistyped(p: Config) {
    p.control == Failed(ConcatMismatch)
  }

  lemma FreedTrails(c: HConfig, p: Config)
    requires Good(c.mem) && c.control.HAt? && HTrails(c, p)
    ensures HTrails(Freed(c), p) && Good(Freed(c).mem)
  {
    hide Good, Released, ReleasedIds, ViewOf;
    if c.control.pc < |c.control.block.instructions| {
      ReleasedBecomes(c.mem, c.control.block.instructions[c.control.pc..], c.control.block.terminator);
    }
  }

  lemma FreedSame(c: HConfig, p: Config)
    requires Good(c.mem) && c.control.HAt? && HSame(c, p)
    ensures HSame(Freed(c), p) && Good(Freed(c).mem)
  {
    hide Good, Released, ReleasedIds, ViewOf, DeadAt;
    var block, pc := c.control.block, c.control.pc;
    if pc < |block.instructions| {
      var ids := ReleasedIds(c.mem, block.instructions[pc..], block.terminator);
      ReleasedBecomes(c.mem, block.instructions[pc..], block.terminator);
      forall v | v in Listed(ids) ensures DeadAt(block, pc, v) {
        ReleasedAreDead(c.mem, block, pc, v);
      }
      ReleaseSame(Plain(c), p, Listed(ids));
    }
  }

  lemma StepHTrails(f: Function, c: HConfig, p: Config, release: bool, moves: bool)
    requires CanonicalConstants(f) && Inside(f, c) && Good(c.mem) && HTrails(c, p)
    ensures HUndefined(HStep(f, c, release)) || HTrails(HStep(f, c, release), Step(f, p, moves)) ||
            Mistyped(Step(f, p, moves))
  {
    hide Good, Released, HExecute, Execute, HTerminate, Terminate, ViewOf;
    if c.control.HAt? {
      FreedTrails(c, p);
      var d := if release then Freed(c) else c;
      AdvanceRefines(f, d);
      StepTrails(f, Plain(d), p, moves);
    }
  }

  lemma StepHSame(f: Function, c: HConfig, p: Config, release: bool)
    requires CanonicalConstants(f) && Sealed(f) && Inside(f, c) && Good(c.mem) && HSame(c, p)
    ensures HSame(HStep(f, c, release), Step(f, p, true)) || Mistyped(Step(f, p, true))
  {
    hide Good, Released, HExecute, Execute, HTerminate, Terminate, ViewOf, DeadAt, Sealed;
    if c.control.HAt? {
      FreedSame(c, p);
      var d := if release then Freed(c) else c;
      AdvanceRefines(f, d);
      StepSame(f, Plain(d), p);
    }
  }

  // ----- every run -----

  lemma {:induction false} RunKeeps(
    f: Function, c: HConfig, release: bool, steps: nat, held: multiset<Loc>, callers: map<nat, Value>)
    requires CanonicalConstants(f) && Inside(f, c) && Sound(c, held, callers)
    ensures Sound(HRun(f, c, release, steps), held, callers) && Inside(f, HRun(f, c, release, steps))
  {
    hide Sound, Advance, Freed, Inside, CanonicalConstants;
    if steps > 0 {
      RunKeeps(f, c, release, steps - 1, held, callers);
      var last := HRun(f, c, release, steps - 1);
      FreedKeeps(f, last, held, callers);
      AdvanceKeeps(f, if release then Freed(last) else last, held, callers);
    }
  }

  lemma {:induction false} RunHTrails(
    f: Function, c: HConfig, p: Config, release: bool, moves: bool, steps: nat,
    held: multiset<Loc>, callers: map<nat, Value>)
    requires CanonicalConstants(f) && Inside(f, c) && Sound(c, held, callers) && HTrails(c, p)
    ensures var h, q := HRun(f, c, release, steps), Run(f, p, moves, steps);
            HUndefined(h) || HTrails(h, q) || Mistyped(q)
  {
    hide Good, Trails, Advance, Freed, Inside, CanonicalConstants, Execute, Terminate, Denote;
    if steps > 0 {
      RunHTrails(f, c, p, release, moves, steps - 1, held, callers);
      RunKeeps(f, c, release, steps - 1, held, callers);
      var h, q := HRun(f, c, release, steps - 1), Run(f, p, moves, steps - 1);
      if HTrails(h, q) {
        StepHTrails(f, h, q, release, moves);
      } else if HUndefined(h) {
        Finished(f, h, release);
      }
    }
  }

  lemma Finished(f: Function, c: HConfig, release: bool)
    requires !c.control.HAt?
    ensures HStep(f, c, release) == c
  {
  }

  lemma {:induction false} RunHSame(
    f: Function, c: HConfig, p: Config, release: bool, steps: nat, held: multiset<Loc>, callers: map<nat, Value>)
    requires CanonicalConstants(f) && Sealed(f) && Inside(f, c) && Sound(c, held, callers) && HSame(c, p)
    ensures var h, q := HRun(f, c, release, steps), Run(f, p, true, steps);
            HSame(h, q) || Mistyped(q)
  {
    hide Good, SameButDead, Advance, Freed, Inside, CanonicalConstants, Execute, Terminate, Denote, Sealed;
    if steps > 0 {
      RunHSame(f, c, p, release, steps - 1, held, callers);
      RunKeeps(f, c, release, steps - 1, held, callers);
      var h, q := HRun(f, c, release, steps - 1), Run(f, p, true, steps - 1);
      if HSame(h, q) {
        StepHSame(f, h, q, release);
      }
    }
  }

  // ----- calls -----

  /** A function called with `args` in flight, run for a number of steps. */
  function Call(f: Function, m: Mem, args: seq<Handle>, release: bool, steps: nat): HConfig {
    HRun(f, HEnter(f, m, args), release, steps)
  }

  /** The same call over plain values. */
  function PlainCall(f: Function, args: seq<Value>, moves: bool, steps: nat): Config {
    Run(f, Enter(f, args), moves, steps)
  }

  /** Arguments owned by the call, on top of what was in flight before. */
  ghost predicate Callable(f: Function, m: Mem, args: seq<Handle>, held: multiset<Loc>) {
    CanonicalConstants(f) && Good(m) && EachLive(m.cells, args) && m.held == held + AllLocs(args)
  }

  /** How far a call has got, over shared buffers and over plain values. */
  datatype Progress = Running(block: Block, pc: nat) | Returned(value: Value) | Aborted(error: RuntimeError)

  function HProgress(c: HConfig): Progress {
    match c.control
    case HAt(block, pc) => Running(block, pc)
    case HDone(h) => Returned(Denote(c.mem.cells, h))
    case HFailed(e) => Aborted(e)
  }

  function PlainProgress(c: Config): Progress {
    match c.control
    case At(block, pc) => Running(block, pc)
    case Done(v) => Returned(v)
    case Failed(e) => Aborted(e)
  }

  /**
   In-place mutation is invisible. However long a call has run, with or without
   early release, it is where the call over plain copied values is and has the
   result that one has, as long as that one meets no mistyped concatenation; the
   only other thing it can do is report an undefined register. The callers'
   bindings keep their meaning, and when the call is over its frame has let go
   of everything but the result.
   */
  lemma MutationIsInvisible(f: Function, m: Mem, args: seq<Handle>, held: multiset<Loc>, release: bool, steps: nat)
    requires Callable(f, m, args, held)
    ensures Sound(Call(f, m, args, release, steps), held, ViewOf(m).callers)
    ensures var h, q := Call(f, m, args, release, steps), PlainCall(f, Meanings(m.cells, args), false, steps);
            HUndefined(h) || HProgress(h) == PlainProgress(q) || Mistyped(q)
  {
    hide Good, Sound, Execute, Terminate, HRun, Run, Enter, HEnter, Denote;
    Entered(f, m, args, held);
    var c, p := HEnter(f, m, args), Enter(f, Meanings(m.cells, args));
    RunKeeps(f, c, release, steps, held, ViewOf(m).callers);
    RunHTrails(f, c, p, release, false, steps, held, ViewOf(m).callers);
  }

  lemma Entered(f: Function, m: Mem, args: seq<Handle>, held: multiset<Loc>)
    requires Callable(f, m, args, held)
    ensures Sound(HEnter(f, m, args), held, ViewOf(m).callers) && Inside(f, HEnter(f, m, args))
    ensures HSame(HEnter(f, m, args), Enter(f, Meanings(m.cells, args))) &&
            HTrails(HEnter(f, m, args), Enter(f, Meanings(m.cells, args)))
  {
    hide Good, FrameDropped, BindHandles, DroppedAll, BindAll;
    EnterRefines(f, m, args, held);
  }

  /**
   Early release is safe in a sealed function: with it, without it, and over
   plain values that only move registers out, a call is always at the same point
   with the same result or error, as long as no concatenation is mistyped.
   */
  lemma EarlyReleaseIsSafe(f: Function, m: Mem, args: seq<Handle>, held: multiset<Loc>, steps: nat)
    requires Callable(f, m, args, held) && Sealed(f)
    ensures var q := PlainCall(f, Meanings(m.cells, args), true, steps);
            || Mistyped(q)
            || (HProgress(Call(f, m, args, true, steps)) == HProgress(Call(f, m, args, false, steps)) ==
               PlainProgress(q))
  {
    hide Good, Sound, Execute, Terminate, HRun, Run, Enter, HEnter, Denote, DeadAt, Sealed;
    Entered(f, m, args, held);
    var c, p := HEnter(f, m, args), Enter(f, Meanings(m.cells, args));
    RunHSame(f, c, p, true, steps, held, ViewOf(m).callers);
    RunHSame(f, c, p, false, steps, held, ViewOf(m).callers);
  }

  // ----- where the provisos bite -----

  /** Of the operands of a consuming site, early release takes those defined at or after it and no other. */
  lemma ReleasedOperand(m: Mem, remaining: seq<Instruction>, t: Terminator, v: ValueId)
    requires Good(m) && remaining != [] && ConsumingReceiver(remaining[0]).Some?
    requires Uses(remaining[0], v) && v in m.values
    ensures v in Released(m, remaining, t).values <==> !DefinedIn(remaining, v)
    ensures !DefinedIn(remaining, v) ==> Operand(Released(m, remaining, t), v) == Operand(m, v)
  {
    hide Good, Released, ReleasedIds, DefinedIn, Denote;
    ReleasedExactly(m, remaining, t, v);
    ReleasedBecomes(m, remaining, t);
    assert UsedIn(remaining, v);
    if !DefinedIn(remaining, v) {
      assert ViewOf(Released(m, remaining, t)).values[v] == ViewOf(m).values[v];
    }
  }

  /** A concatenation of operands that are there and match goes through. */
  lemma AppendSucceeds(m: Mem, i: Instruction)
    requires Good(m) && i.Append? && i.lhs in m.values && i.rhs in m.values
    requires Concat(i.kind, Operand(m, i.lhs), Operand(m, i.rhs)).Ok?
    ensures HExecute(i, m).Ok?
  {
    hide Good, HExecute, SlipsThrough, Concat, Becomes;
    ExecuteRefines(i, m);
  }

  /**
   Sealing is needed: a consuming site that goes through without early release
   goes through with it exactly when neither operand is defined at or after it
   in the block; otherwise that operand is reported undefined, the right one
   first.
   */
  lemma ReleaseNeedsSealing(f: Function, c: HConfig)
    requires Good(c.mem) && c.control.HAt? && c.control.pc < |c.control.block.instructions|
    requires var i := c.control.block.instructions[c.control.pc];
             && i.Append? && i.consumesLhs && i.lhs in c.mem.values && i.rhs in c.mem.values
             && Concat(i.kind, Operand(c.mem, i.lhs), Operand(c.mem, i.rhs)).Ok?
    ensures var block, pc := c.control.block, c.control.pc;
            var i, remaining := block.instructions[pc], block.instructions[pc..];
            && HStep(f, c, false).control == HAt(block, pc + 1)
            && HStep(f, c, true).control ==
               if DefinedIn(remaining, i.rhs) then HFailed(ValueUndefined(i.rhs))
               else if DefinedIn(remaining, i.lhs) then HFailed(ValueUndefined(i.lhs))
               else HAt(block, pc + 1)
  {
    hide Good, Released, FrameDropped, AppendMoving, AppendCopying, DefinedIn, Concat, Operand;
    var block, pc := c.control.block, c.control.pc;
    var i, remaining := block.instructions[pc], block.instructions[pc..];
    assert remaining[0] == i;
    ReleasedOperand(c.mem, remaining, block.terminator, i.lhs);
    ReleasedOperand(c.mem, remaining, block.terminator, i.rhs);
    AppendSucceeds(c.mem, i);
    if !DefinedIn(remaining, i.rhs) && !DefinedIn(remaining, i.lhs) {
      ReleasedBecomes(c.mem, remaining, block.terminator);
      AppendSucceeds(Released(c.mem, remaining, block.terminator), i);
    }
  }

  /** Well-typed concatenations are needed: the in-place path never looks at the kind the instruction names. */
  lemma MistypedConcatSlips(m: Mem, dest: ValueId, lhs: ValueId, rhs: ValueId)
    requires Good(m) && lhs in m.values && rhs in m.values && m.values[lhs].HString? && m.values[rhs].HString?
    requires m.cells[m.values[lhs].loc].count == 1 && m.values[lhs].loc != m.values[rhs].loc
    ensures var i := Append(true, dest, BinaryKind, lhs, rhs);
            HExecute(i, m).Ok? && Execute(i, FrameOf(m), true) == Err(ConcatMismatch)
  {
    var i := Append(true, dest, BinaryKind, lhs, rhs);
    assert SlipsThrough(i, m);
    ExecuteRefines(i, m);
  }
}
