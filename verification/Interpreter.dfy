/**
 The interpreter's frame as an object updated in place, each method proved to
 take the step its memory function takes.
 */
module Interpreter {
  import opened BitStrings
  import opened Values
  import opened IntOps
  import opened BinaryAppend
  import opened Program
  import opened PureMachine
  import opened RcHeap
  import opened RcMachine
  import opened RcRelease
  import opened RcControl
  import opened RcRuns
  import opened Wrappers
  import KeyOrder

  /** What driving a body comes to: a result in flight, a restart, an error, or no steps left. */
  datatype BlockOutcome =
    | Finished(handle: Handle)
    | TailRestart(args: seq<Handle>)
    | Stopped(error: RuntimeError)
    | OutOfSteps(block: Block, pc: nat)

  /** Nothing in flight that was not before, and the callers see what they saw. */
  ghost predicate Quiet(before: Mem, after: Mem) {
    Good(after) && after.held == before.held && ViewOf(after).callers == ViewOf(before).callers
  }

  /** The instruction has done what its memory function does, or failed where that fails. */
  ghost predicate Did(i: Instruction, before: Mem, after: Mem, failure: Option<RuntimeError>) {
    && Quiet(before, after)
    && match HExecute(i, before)
       case Ok(m) => failure == None && after == m
       case Err(e) => failure == Some(e)
  }

  class Frame {
    var cells: Cells
    var next: Loc
    var values: Slots
    var locals: Slots
    /** The bindings of the calling frames. */
    ghost var callers: Slots
    /** The references held by values not bound to any slot. */
    ghost var held: multiset<Loc>

    ghost function State(): Mem
      reads this
    {
      Mem(cells, next, values, locals, callers, held)
    }

    ghost predicate Valid()
      reads this
    {
      Good(State())
    }

    // ----- reference counts -----

    method Share(h: Handle)
      modifies this
      ensures State() == Shared(old(State()), h)
    {
      if HasCell(h) && h.loc in cells {
        cells := cells[h.loc := Cell(cells[h.loc].bytes, cells[h.loc].count + 1)];
        held := held + multiset{h.loc};
      }
    }

    method Drop(h: Handle)
      modifies this
      ensures State() == Dropped(old(State()), h)
    {
      if HasCell(h) && h.loc in cells {
        if cells[h.loc].count > 1 {
          cells := cells[h.loc := Cell(cells[h.loc].bytes, cells[h.loc].count - 1)];
        } else {
          cells := cells - {h.loc};
        }
        held := held - multiset{h.loc};
      }
    }

    method Allocate(bytes: seq<Byte>) returns (l: Loc)
      modifies this
      ensures State() == Allocated(old(State()), bytes) && l == old(next)
    {
      l := next;
      cells := cells[l := Cell(bytes, 1)];
      next := l + 1;
      held := held + multiset{l};
    }

    // ----- registers and slots -----

    method Take(id: ValueId) returns (h: Option<Handle>)
      modifies this
      ensures State() == TakenOut(old(State()), id)
      ensures h == if id in old(values) then Some(old(values)[id]) else None
    {
      if id !in values {
        return None;
      }
      h := Some(values[id]);
      held := held + Locs(values[id]);
      values := values - {id};
    }

    method Remove(id: ValueId)
      modifies this
      ensures State() == Removed(old(State()), id)
    {
      var h := Take(id);
      if h.Some? {
        Drop(h.value);
      }
    }

    method Insert(id: ValueId, h: Handle)
      modifies this
      ensures State() == PutIn(old(State()), id, h)
    {
      Remove(id);
      values := values[id := h];
      held := held - Locs(h);
    }

    method InsertLocal(local: LocalId, h: Handle)
      modifies this
      ensures State() == PutLocalIn(old(State()), local, h)
    {
      values, locals := locals, values;
      Insert(local, h);
      values, locals := locals, values;
    }

    method Lookup(id: ValueId) returns (r: Result<Handle, RuntimeError>)
      modifies this
      ensures r == if id in old(values) then Ok(old(values)[id]) else Err(ValueUndefined(id))
      ensures State() == if id in old(values) then Shared(old(State()), old(values)[id]) else old(State())
    {
      if id !in values {
        return Err(ValueUndefined(id));
      }
      r := Ok(values[id]);
      Share(values[id]);
    }

    // ----- concatenation -----

    /** Append to the left buffer where it stands, when no other reference to it exists. */
    method ExtendUniqueBytes(left: Handle, right: Handle) returns (extended: bool)
      requires HasCell(right) ==> right.loc in cells
      modifies this
      ensures extended == Extendable(old(State()), left, right)
      ensures State() ==
              if extended then Grown(old(State()), left.loc,
                BytesAt(old(cells), left.loc) + BytesAt(old(cells), right.loc))
              else old(State())
    {
      if !SameByteKind(left, right) || left.loc !in cells || cells[left.loc].count != 1 {
        return false;
      }
      cells := cells[left.loc := Cell(cells[left.loc].bytes + cells[right.loc].bytes, cells[left.loc].count)];
      return true;
    }

    method ConcatValues(kind: ConcatKind, left: Handle, right: Handle) returns (r: Result<Handle, RuntimeError>)
      requires Live(cells, left) && Live(cells, right)
      modifies this
      ensures match ConcatFresh(old(State()), kind, left, right)
              case Ok(made) => r == Ok(made.handle) && State() == made.mem
              case Err(e) => r == Err(e) && State() == old(State())
    {
      hide JoinBits, Padded, ToBits;
      match (kind, left, right)
      case (StringKind, HString(l), HString(m)) =>
        var at := Allocate(cells[l].bytes + cells[m].bytes);
        return Ok(HString(at));
      case (BinaryKind, HBinary(l), HBinary(m)) =>
        var at := Allocate(cells[l].bytes + cells[m].bytes);
        return Ok(HBinary(at));
      case (BitsKind, HBits(l, a), HBits(m, b)) =>
        var joined := ConcatBits(cells[l].bytes, a, cells[m].bytes, b);
        var at := Allocate(joined);
        return Ok(HBits(at, a + b));
      case _ =>
        return Err(ConcatMismatch);
    }

    /** Turn the left operand, in flight, into the concatenation: in place if it is unique, by copying if not. */
    method ConsumeLeft(kind: ConcatKind, left: Handle, right: Handle) returns (r: Result<Handle, RuntimeError>)
      requires Live(cells, left) && Live(cells, right)
      modifies this
      ensures match Consume(old(State()), kind, left, right)
              case Ok(made) => r == Ok(made.handle) && State() == made.mem
              case Err(e) => r == Err(e) && State() == Dropped(old(State()), left)
    {
      hide Dropped, Denote, Concat, Materialize;
      var extended := ExtendUniqueBytes(left, right);
      if extended {
        return Ok(left);
      }
      r := ConcatValues(kind, left, right);
      Drop(left);
    }

    method ExecuteConsumingConcat(
      dest: ValueId, kind: ConcatKind, lhs: ValueId, rhs: ValueId) returns (failure: Option<RuntimeError>)
      requires Valid()
      modifies this
      ensures Did(Append(true, dest, kind, lhs, rhs), old(State()), State(), failure)
    {
      hide Good, Shared, Dropped, PutIn, Live, ViewOf, Denote, TakenOut, Consume, Execute, SlipsThrough;
      ghost var i, before := Append(true, dest, kind, lhs, rhs), State();
      AppendRefines(i, before);
      BindingsLive(before, rhs);
      var right := Lookup(rhs);
      if right.Err? {
        return Some(right.error);
      }
      SharedBindings(before, right.value);
      var left := Take(lhs);
      if left.None? {
        AbsentTake(Shared(before, right.value), lhs);
        ReadAndDropped(before, right.value);
        Drop(right.value);
        return Some(ValueUndefined(lhs));
      }
      MovedOut(before, lhs, rhs);
      MovingAbandoned(before, lhs, rhs);
      var result := ConsumeLeft(kind, left.value, right.value);
      Drop(right.value);
      if result.Err? {
        return Some(result.error);
      }
      Insert(dest, result.value);
      return None;
    }

    method ExecuteCopyingConcat(
      dest: ValueId, kind: ConcatKind, lhs: ValueId, rhs: ValueId) returns (failure: Option<RuntimeError>)
      requires Valid()
      modifies this
      ensures Did(Append(false, dest, kind, lhs, rhs), old(State()), State(), failure)
    {
      hide Good, Shared, Dropped, PutIn, Live, ViewOf, Denote;
      ghost var i, before := Append(false, dest, kind, lhs, rhs), State();
      AppendRefines(i, before);
      BindingsLive(before, rhs);
      BindingsLive(before, lhs);
      var right := Lookup(rhs);
      if right.Err? {
        return Some(right.error);
      }
      SharedBindings(before, right.value);
      var left := Lookup(lhs);
      if left.Err? {
        ReadAndDropped(before, right.value);
        Drop(right.value);
        return Some(left.error);
      }
      BothShared(before, right.value, left.value);
      BothDropped(before, right.value, left.value);
      var joined := ConcatValues(kind, left.value, right.value);
      if joined.Err? {
        Drop(right.value);
        Drop(left.value);
        return Some(joined.error);
      }
      Drop(left.value);
      Drop(right.value);
      Insert(dest, joined.value);
      return None;
    }

    method ExecuteBinaryOp(
      dest: ValueId, op: BinOp, ty: IntType, lhs: ValueId, rhs: ValueId) returns (failure: Option<RuntimeError>)
      requires Valid()
      modifies this
      ensures Did(BinaryOp(dest, op, ty, lhs, rhs), old(State()), State(), failure)
    {
      hide Good, Shared, Dropped, PutIn, Live, ViewOf, Execute, ApplyBinaryOp;
      ghost var i, before := BinaryOp(dest, op, ty, lhs, rhs), State();
      ExecuteRefines(i, before);
      BindingsLive(before, rhs);
      BindingsLive(before, lhs);
      var left := Lookup(lhs);
      if left.Err? {
        return Some(left.error);
      }
      SharedBindings(before, left.value);
      var right := Lookup(rhs);
      if right.Err? {
        ReadAndDropped(before, left.value);
        Drop(left.value);
        return Some(right.error);
      }
      BothShared(before, left.value, right.value);
      BothDropped(before, left.value, right.value);
      var result := ApplyBinaryOp(op, ty, Denote(cells, left.value), Denote(cells, right.value));
      Drop(left.value);
      Drop(right.value);
      if result.Err? {
        return Some(result.error);
      }
      Insert(dest, Scalar(result.value));
      return None;
    }

    method Materialized(v: Value) returns (h: Handle)
      modifies this
      ensures Made(State(), h) == Materialize(old(State()), v)
    {
      match v
      case String(bytes) =>
        var at := Allocate(bytes);
        return HString(at);
      case Binary(bytes) =>
        var at := Allocate(bytes);
        return HBinary(at);
      case Bits(bytes, n) =>
        var at := Allocate(bytes);
        return HBits(at, n);
      case _ =>
        return Scalar(v);
    }

    /** One instruction: compute, then bind the result to its register. */
    method ExecuteInstruction(i: Instruction) returns (failure: Option<RuntimeError>)
      requires Valid() && (i.Const? ==> Canonical(i.value))
      modifies this
      ensures Did(i, old(State()), State(), failure)
    {
      hide Good, Shared, Dropped, PutIn, PutLocalIn, Live, ViewOf, Denote, Execute, AppendMoving, AppendCopying,
        ComputeBinary, Materialize;
      ghost var before := State();
      ExecuteRefines(i, before);
      failure := None;
      match i
      case Const(dest, value) =>
        var h := Materialized(value);
        Insert(dest, h);
      case LocalDecl(local) =>
        InsertLocal(local, HUnit);
      case LocalRead(dest, local) =>
        if local !in locals {
          return Some(SealViolation);
        }
        var h := locals[local];
        Share(h);
        Insert(dest, h);
      case LocalWrite(local, source) =>
        var h := Lookup(source);
        if h.Err? {
          return Some(h.error);
        }
        InsertLocal(local, h.value);
      case ConsumeLocal(local) =>
        InsertLocal(local, HUnit);
      case Clone(dest, source) =>
        var h := Lookup(source);
        if h.Err? {
          return Some(h.error);
        }
        Insert(dest, h.value);
      case Append(consumes, dest, kind, lhs, rhs) =>
        if consumes {
          failure := ExecuteConsumingConcat(dest, kind, lhs, rhs);
        } else {
          failure := ExecuteCopyingConcat(dest, kind, lhs, rhs);
        }
      case BinaryOp(dest, op, ty, lhs, rhs) =>
        failure := ExecuteBinaryOp(dest, op, ty, lhs, rhs);
      case DropLocal(_) =>
      case DropValue(_) =>
    }

    // ----- early release -----

    method RemoveAll(ids: seq<ValueId>)
      modifies this
      ensures State() == RemovedAll(old(State()), ids)
    {
      hide Removed;
      for k := 0 to |ids|
        invariant State() == RemovedAll(old(State()), ids[..k])
      {
        assert ids[..k + 1][..k] == ids[..k];
        Remove(ids[k]);
      }
      assert ids[..|ids|] == ids;
    }

    /** The registers holding the receiver's storage that nothing left in the block reads, in key order. */
    method DeadAtExit(receiver: ValueId, remaining: seq<Instruction>, t: Terminator) returns (dead: seq<ValueId>)
      requires receiver in values
      ensures dead == KeyOrder.InKeyOrder(ExitDead(values, receiver, remaining, t))
    {
      ghost var lingering := ExitDead(values, receiver, remaining, t);
      var ids := KeyOrder.InKeyOrder(values.Keys);
      dead := [];
      hide Lingers, KeyOrder.InKeyOrder;
      for k := 0 to |ids|
        invariant Selects(dead, ids[..k], lingering)
      {
        assert ids[k] in ids;
        SelectsMore(dead, ids, k, lingering);
        if Lingers(values, receiver, remaining, t, ids[k]) {
          dead := dead + [ids[k]];
        }
      }
      assert ids[..|ids|] == ids;
      KeyOrder.AscendingUnique(dead, KeyOrder.InKeyOrder(lingering));
    }

    /** Drop the dead registers that would keep a consuming site's buffer shared. */
    method ReleaseDeadRegisters(i: Instruction, rest: seq<Instruction>, t: Terminator)
      modifies this
      ensures State() == Released(old(State()), [i] + rest, t)
    {
      var receiver := ConsumingReceiver(i);
      var remaining := [i] + rest;
      if receiver.None? {
        return;
      }
      RemovedAllStarts(State(), remaining);
      hide Removed, RemovedAll, Dests, DefinedIn, UsedIn, TerminatorUses, ExitDead;
      for k := 0 to |remaining|
        invariant State() == RemovedAll(old(State()), Dests(remaining[..k]))
      {
        DestsStep(remaining, k);
        if Dest(remaining[k]).Some? {
          RemovedAllGrows(old(State()), Dests(remaining[..k]), Dest(remaining[k]).value);
          Remove(Dest(remaining[k]).value);
        }
      }
      assert remaining[..|remaining|] == remaining;
      if Exits(t) && receiver.value in values {
        var dead := DeadAtExit(receiver.value, remaining, t);
        RemoveAll(dead);
        RemovedAllAdds(old(State()), Dests(remaining), dead);
      }
    }

    // ----- leaving a block -----

    method DropAll(hs: seq<Handle>)
      modifies this
      ensures State() == DroppedAll(old(State()), hs)
    {
      hide Dropped;
      for k := 0 to |hs|
        invariant State() == DroppedAll(old(State()), hs[..k])
      {
        assert hs[..k + 1][..k] == hs[..k];
        Drop(hs[k]);
      }
      assert hs[..|hs|] == hs;
    }

    /** Drop every register and local slot. */
    method DropFrame()
      modifies this
      ensures State() == FrameDropped(old(State()))
    {
      hide RemovedAll, KeyOrder.InKeyOrder;
      RemoveAll(KeyOrder.InKeyOrder(values.Keys));
      values, locals := locals, values;
      RemoveAll(KeyOrder.InKeyOrder(values.Keys));
      values, locals := locals, values;
    }

    /** Share the named registers left to right; a missing one lets the reads already made go again. */
    method LookupEach(ids: seq<ValueId>) returns (r: Result<seq<Handle>, RuntimeError>)
      requires Valid()
      modifies this
      ensures r == LookupAll(old(values), ids)
      ensures r.Ok? ==> State() == SharedAll(old(State()), r.value)
      ensures r.Err? ==> Quiet(old(State()), State())
    {
      hide Shared, Dropped, DroppedAll, Good, ViewOf;
      ghost var before := State();
      var hs := [];
      for k := 0 to |ids|
        invariant LookupAll(old(values), ids[..k]) == Ok(hs)
        invariant State() == SharedAll(old(State()), hs) && values == old(values)
      {
        var h := Lookup(ids[k]);
        if h.Err? {
          LookupStops(old(values), ids, k);
          ReadAllAndDropped(before, ids[..k]);
          DropAll(hs);
          return Err(h.error);
        }
        LookupGrows(old(values), ids, k);
        SharedBindings(SharedAll(old(State()), hs), h.value);
        assert (hs + [h.value])[..|hs|] == hs;
        hs := hs + [h.value];
      }
      assert ids[..|ids|] == ids;
      return Ok(hs);
    }

    /** Insert handles in flight under names, first to last. */
    method InsertEach(names: seq<ValueId>, hs: seq<Handle>)
      requires |names| == |hs|
      modifies this
      ensures State() == BindHandles(old(State()), names, hs)
    {
      hide PutIn;
      for k := 0 to |names|
        invariant State() == BindHandles(old(State()), names[..k], hs[..k])
      {
        assert names[..k + 1][..k] == names[..k] && hs[..k + 1][..k] == hs[..k];
        Insert(names[k], hs[k]);
      }
      assert names[..|names|] == names && hs[..|hs|] == hs;
    }

    /** Evaluate the arguments of a branch edge, then bind the target's parameters. */
    method BindBlockParams(f: Function, target: Target) returns (r: Result<Block, RuntimeError>)
      requires Valid()
      modifies this
      ensures match HJump(f, old(State()), target).control
              case HAt(block, pc) => r == Ok(block) && pc == 0 && State() == HJump(f, old(State()), target).mem
              case HFailed(e) => r == Err(e) && Quiet(old(State()), State())
              case HDone(_) => false
    {
      hide SharedAll, BindHandles, Good, ViewOf, FrameDropped;
      var found := FindBlock(f.blocks, target.block);
      if found.None? || |target.args| != |found.value.params| {
        return Err(SealViolation);
      }
      var bindings := LookupEach(target.args);
      if bindings.Err? {
        return Err(bindings.error);
      }
      InsertEach(found.value.params, bindings.value);
      return Ok(found.value);
    }

    /** A fresh frame with the arguments bound; surplus arguments are dropped. */
    method EnterFrame(f: Function, args: seq<Handle>)
      modifies this
      ensures HEnter(f, old(State()), args) ==
              if f.blocks == [] then HFail(State(), SealViolation) else HConfig(State(), HAt(f.blocks[0], 0))
    {
      hide FrameDropped, BindHandles, DroppedAll;
      DropFrame();
      var n := PureMachine.Min(|f.params|, |args|);
      InsertEach(f.params[..n], args[..n]);
      DropAll(args[n..]);
    }

    // ----- driving a body -----

    /** Leave a block: step into the next one, or leave the frame. */
    method LeaveBlock(f: Function, block: Block) returns (r: Result<Block, BlockOutcome>)
      requires Valid()
      modifies this
      ensures Leaves(f, old(State()), block.terminator, State(), r)
    {
      hide Good, ViewOf, FrameDropped, HJump, SharedAll, Shared, HReturn, HEnter;
      match block.terminator
      case Branch(target) =>
        var bound := BindBlockParams(f, target);
        r := Continued(bound);
      case CondBranch(cond, thenTarget, elseTarget) =>
        if cond !in values {
          return Err(Stopped(ValueUndefined(cond)));
        }
        if !values[cond].HBool? {
          return Err(Stopped(ConditionMismatch));
        }
        var bound := BindBlockParams(f, if values[cond].truth then thenTarget else elseTarget);
        r := Continued(bound);
      case Return(None) =>
        r := Err(Finished(HUnit));
      case Return(Some(id)) =>
        var h := Lookup(id);
        r := if h.Ok? then Err(Finished(h.value)) else Err(Stopped(h.error));
      case TailCall(args) =>
        var handles := LookupEach(args);
        r := if handles.Ok? then Err(TailRestart(handles.value)) else Err(Stopped(handles.error));
      case Unreachable =>
        r := Err(Stopped(UnreachableExecuted));
    }

    /** Release dead registers, then run the instruction. */
    method StepInstruction(
      f: Function, block: Block, index: nat, ghost held0: multiset<Loc>, ghost callers0: map<nat, Value>)
      returns (failure: Option<RuntimeError>)
      requires CanonicalConstants(f) && block in f.blocks && index < |block.instructions|
      requires Sound(HConfig(State(), HAt(block, index)), held0, callers0)
      modifies this
      ensures Sound(HConfig(State(), HAt(block, index + 1)), held0, callers0)
      ensures var next := HStep(f, HConfig(old(State()), HAt(block, index)), true);
              match failure
              case None => next == HConfig(State(), HAt(block, index + 1))
              case Some(e) => next.control == HFailed(e)
    {
      hide Good, ViewOf, Freed, Advance, HExecute, CanonicalConstants, Released;
      ghost var here := HConfig(State(), HAt(block, index));
      FreedKeeps(f, here, held0, callers0);
      InstructionAhead(f, here);
      ReleaseDeadRegisters(block.instructions[index], block.instructions[index + 1..], block.terminator);
      failure := ExecuteInstruction(block.instructions[index]);
    }

    /** Run a block's instructions, releasing dead registers before each. */
    method ExecuteInstructions(
      f: Function, block: Block, budget: nat, ghost held0: multiset<Loc>, ghost callers0: map<nat, Value>)
      returns (outcome: Option<BlockOutcome>, used: nat)
      requires CanonicalConstants(f) && block in f.blocks
      requires Sound(HConfig(State(), HAt(block, 0)), held0, callers0)
      modifies this
      ensures used <= budget
      ensures var start := HConfig(old(State()), HAt(block, 0));
              match outcome
              case None => used < budget &&
                HRun(f, start, true, used) == HConfig(State(), HAt(block, |block.instructions|))
              case Some(out) => Ends(f, start, used, budget, State(), out)
      ensures Sound(HConfig(State(), HAt(block, 0)), held0, callers0)
    {
      hide Good, ViewOf, HStep, CanonicalConstants;
      ghost var start := HConfig(State(), HAt(block, 0));
      used := 0;
      var index := 0;
      while index < |block.instructions|
        invariant index == used <= |block.instructions| && used <= budget
        invariant HRun(f, start, true, used) == HConfig(State(), HAt(block, index))
        invariant Sound(HConfig(State(), HAt(block, index)), held0, callers0)
      {
        if used == budget {
          return Some(OutOfSteps(block, index)), used;
        }
        var failure := StepInstruction(f, block, index, held0, callers0);
        if failure.Some? {
          return Some(Stopped(failure.value)), used;
        }
        index := index + 1;
        used := used + 1;
      }
      if used == budget {
        return Some(OutOfSteps(block, index)), used;
      }
      return None, used;
    }

    /** Drive the body from its first block until it leaves the frame. */
    method ExecuteBlocks(f: Function, budget: nat, ghost held0: multiset<Loc>, ghost callers0: map<nat, Value>)
      returns (outcome: BlockOutcome, used: nat)
      requires CanonicalConstants(f) && f.blocks != []
      requires Sound(HConfig(State(), HAt(f.blocks[0], 0)), held0, callers0)
      modifies this
      ensures used <= budget && Ends(f, HConfig(old(State()), HAt(f.blocks[0], 0)), used, budget, State(), outcome)
      ensures outcome.Stopped? || outcome.OutOfSteps? ==> Sound(HConfig(State(), HAt(f.blocks[0], 0)), held0, callers0)
    {
      hide Good, ViewOf, HStep, HTerminate, CanonicalConstants, HRun, Sound, Ends, Leaves;
      ghost var start := HConfig(State(), HAt(f.blocks[0], 0));
      RunStarts(f, start);
      var block := f.blocks[0];
      used := 0;
      while true
        invariant used <= budget && block in f.blocks
        invariant HRun(f, start, true, used) == HConfig(State(), HAt(block, 0))
        invariant Sound(HConfig(State(), HAt(block, 0)), held0, callers0)
        decreases budget - used
      {
        var out, n := ExecuteInstructions(f, block, budget - used, held0, callers0);
        RunAddsUp(f, start, used, n);
        SoundAnywhere(State(), block, f.blocks[0], held0, callers0);
        if out.Some? {
          EndsLater(f, start, used, n, budget, State(), out.value);
          return out.value, used + n;
        }
        used := used + n;
        ghost var before := State();
        SoundIsGood(before, block, held0, callers0);
        var next := LeaveBlock(f, block);
        BlockLeft(f, before, block, State(), next, held0, callers0);
        if next.Err? {
          LeftEnds(f, start, used, budget, before, block, State(), next);
          SoundAnywhere(State(), block, f.blocks[0], held0, callers0);
          return next.error, used;
        }
        RunGrows(f, start, used);
        block := next.value;
        used := used + 1;
      }
    }

    /**
     Call a function for at most `budget` steps. A tail call re-seeds the frame
     and runs the same body again.
     */
    method ExecuteFunction(f: Function, args: seq<Handle>, budget: nat, ghost held0: multiset<Loc>)
      returns (outcome: HControl, used: nat)
      requires Callable(f, State(), args, held0)
      modifies this
      ensures used <= budget && (outcome.HAt? ==> used == budget)
      ensures Call(f, old(State()), args, true, used).control == outcome
      ensures outcome.HDone? || outcome.HAt? ==> Call(f, old(State()), args, true, used).mem == State()
      ensures Sound(HConfig(State(), outcome), held0, old(ViewOf(State()).callers))
      ensures var plain := PlainCall(f, Meanings(old(cells), args), false, used);
              HUndefined(HConfig(State(), outcome)) || Mistyped(plain) ||
                HProgress(HConfig(State(), outcome)) == PlainProgress(plain)
    {
      hide Good, ViewOf, HStep, CanonicalConstants, HRun, Live, Locs, HEnter, FrameDropped, PlainCall, HProgress,
        PlainProgress, HUndefined, Mistyped, HTerminate, Sound, Dropped;
      ghost var callers0, start := ViewOf(State()).callers, HEnter(f, State(), args);
      Entered(f, State(), args, held0);
      RunStarts(f, start);
      used := 0;
      EnterFrame(f, args);
      if f.blocks == [] {
        DropFrame();
        CallGives(f, old(State()), args, held0, 0, State(), HFailed(SealViolation));
        return HFailed(SealViolation), 0;
      }
      while true
        invariant used <= budget
        invariant HRun(f, start, true, used) == HConfig(State(), HAt(f.blocks[0], 0))
        decreases budget - used
      {
        RunKeeps(f, start, true, used, held0, callers0);
        var out, n := ExecuteBlocks(f, budget - used, held0, callers0);
        RunAddsUp(f, start, used, n);
        used := used + n;
        RunGrows(f, start, used);
        match out
        case Finished(h) =>
          RunKeeps(f, start, true, used + 1, held0, callers0);
          if f.returnsUnit {
            Drop(h);
          }
          DropFrame();
          outcome := HDone(if f.returnsUnit then HUnit else h);
          CallGives(f, old(State()), args, held0, used + 1, State(), outcome);
          return outcome, used + 1;
        case TailRestart(next) =>
          EnterFrame(f, next);
          used := used + 1;
        case Stopped(e) =>
          StoppedSound(State(), f.blocks[0], e, held0, callers0);
          DropFrame();
          CallGives(f, old(State()), args, held0, used + 1, State(), HFailed(e));
          return HFailed(e), used + 1;
        case OutOfSteps(block, pc) =>
          RunKeeps(f, start, true, used, held0, callers0);
          CallGives(f, old(State()), args, held0, used, State(), HAt(block, pc));
          return HAt(block, pc), used;
      }
    }
  }

  /** What a call has come to, against the copying call. */
  lemma CallGives(
    f: Function, before: Mem, args: seq<Handle>, held: multiset<Loc>, used: nat, after: Mem, outcome: HControl)
    requires Callable(f, before, args, held)
    requires Call(f, before, args, true, used).control == outcome
    requires !outcome.HFailed? ==> Call(f, before, args, true, used).mem == after
    ensures var plain := PlainCall(f, Meanings(before.cells, args), false, used);
            HUndefined(HConfig(after, outcome)) || Mistyped(plain) ||
            HProgress(HConfig(after, outcome)) == PlainProgress(plain)
  {
    hide Callable, Call, PlainCall, Mistyped, PlainProgress;
    MutationIsInvisible(f, before, args, held, true, used);
  }

  lemma SharedBindings(m: Mem, h: Handle)
    ensures Shared(m, h).values == m.values && Shared(m, h).locals == m.locals
  {
  }

  lemma AbsentTake(m: Mem, id: ValueId)
    requires id !in m.values
    ensures TakenOut(m, id) == m
  {
  }

  /** The listed ids that are in the set, ascending. */
  ghost predicate Selects(chosen: seq<ValueId>, ids: seq<ValueId>, s: set<ValueId>) {
    KeyOrder.Ascending(chosen) && forall v :: v in chosen <==> v in ids && v in s
  }

  lemma SelectsMore(chosen: seq<ValueId>, ids: seq<ValueId>, k: nat, s: set<ValueId>)
    requires KeyOrder.Ascending(ids) && k < |ids| && Selects(chosen, ids[..k], s)
    ensures Selects(if ids[k] in s then chosen + [ids[k]] else chosen, ids[..k + 1], s)
  {
    assert ids[..k + 1] == ids[..k] + [ids[k]];
    forall j | 0 <= j < |chosen| ensures chosen[j] < ids[k] {
      assert chosen[j] in ids[..k];
    }
  }

  lemma RemovedAllStarts(m: Mem, instructions: seq<Instruction>)
    ensures RemovedAll(m, Dests(instructions[..0])) == m
  {
  }

  lemma DestsStep(instructions: seq<Instruction>, k: nat)
    requires k < |instructions|
    ensures Dest(instructions[k]).None? ==> Dests(instructions[..k + 1]) == Dests(instructions[..k])
    ensures Dest(instructions[k]).Some? ==>
            Dests(instructions[..k + 1]) == Dests(instructions[..k]) + [Dest(instructions[k]).value]
  {
    assert instructions[..k + 1][..k] == instructions[..k];
  }

  lemma RemovedAllGrows(m: Mem, ids: seq<ValueId>, id: ValueId)
    ensures RemovedAll(m, ids + [id]) == Removed(RemovedAll(m, ids), id)
  {
    hide Removed;
    assert (ids + [id])[..|ids|] == ids;
  }

  lemma {:induction false} RemovedAllAdds(m: Mem, a: seq<ValueId>, b: seq<ValueId>)
    ensures RemovedAll(RemovedAll(m, a), b) == RemovedAll(m, a + b)
  {
    hide Removed;
    if b == [] {
      assert a + b == a;
    } else {
      var n := |b| - 1;
      RemovedAllAdds(m, a, b[..n]);
      assert (a + b)[..|a| + n] == a + b[..n];
    }
  }

  lemma {:induction false} LookupStops(values: Slots, ids: seq<ValueId>, k: nat)
    requires k < |ids| && LookupAll(values, ids[..k]).Ok? && ids[k] !in values
    ensures LookupAll(values, ids) == Err(ValueUndefined(ids[k]))
  {
    if k > 0 {
      assert ids[..k][1..] == ids[1..][..k - 1];
      LookupStops(values, ids[1..], k - 1);
    }
  }

  lemma {:induction false} LookupGrows(values: Slots, ids: seq<ValueId>, k: nat)
    requires k < |ids| && LookupAll(values, ids[..k]).Ok? && ids[k] in values
    ensures LookupAll(values, ids[..k + 1]) == Ok(LookupAll(values, ids[..k]).value + [values[ids[k]]])
  {
    if k == 0 {
      assert ids[..1][1..] == [] && ids[..k] == [];
      var h := values[ids[0]];
      assert LookupAll(values, ids[..1]).value == [h] + [] == [] + [h];
    } else {
      assert ids[..k][1..] == ids[1..][..k - 1] && ids[..k + 1][1..] == ids[1..][..k];
      LookupGrows(values, ids[1..], k - 1);
      var first, rest := values[ids[0]], LookupAll(values, ids[1..][..k - 1]).value;
      assert [first] + (rest + [values[ids[k]]]) == ([first] + rest) + [values[ids[k]]];
    }
  }

  lemma ReadAllAndDropped(m: Mem, ids: seq<ValueId>)
    requires Good(m) && LookupAll(m.values, ids).Ok?
    ensures var hs := LookupAll(m.values, ids).value;
            Quiet(m, DroppedAll(SharedAll(m, hs), hs))
  {
    hide Good, ViewOf, Live, Denote, DroppedAll, SharedAll;
    var hs := LookupAll(m.values, ids).value;
    LookedUpLive(m, ids);
    SharedAllGood(m, hs);
    HeldBack(m.held, AllLocs(hs));
    DroppedAllGood(SharedAll(m, hs), hs);
  }

  function Continued(bound: Result<Block, RuntimeError>): Result<Block, BlockOutcome> {
    if bound.Ok? then Ok(bound.value) else Err(Stopped(bound.error))
  }

  /** The method has left the block as the memory function does. */
  ghost predicate Leaves(f: Function, before: Mem, t: Terminator, after: Mem, r: Result<Block, BlockOutcome>) {
    var c := HTerminate(f, before, t);
    match r
    case Ok(block) => c == HConfig(after, HAt(block, 0))
    case Err(Finished(h)) => c == HReturn(f, after, h)
    case Err(TailRestart(args)) => c == HEnter(f, after, args)
    case Err(Stopped(e)) => c.control == HFailed(e) && Quiet(before, after)
    case Err(OutOfSteps(_, _)) => false
  }

  /** How driving a body from `start` has ended, `used` steps on. */
  ghost predicate Ends(f: Function, start: HConfig, used: nat, budget: nat, after: Mem, outcome: BlockOutcome) {
    var c := HRun(f, start, true, used);
    match outcome
    case Finished(h) => used < budget && HStep(f, c, true) == HReturn(f, after, h)
    case TailRestart(args) => used < budget && HStep(f, c, true) == HEnter(f, after, args)
    case Stopped(e) => used < budget && HStep(f, c, true).control == HFailed(e)
    case OutOfSteps(block, pc) => used == budget && c == HConfig(after, HAt(block, pc))
  }

  lemma InstructionAhead(f: Function, c: HConfig)
    requires CanonicalConstants(f) && Inside(f, c) && c.control.HAt? && c.control.pc < |c.control.block.instructions|
    ensures var block, pc := c.control.block, c.control.pc;
            var i, m := block.instructions[pc],
              Released(c.mem, [block.instructions[pc]] + block.instructions[pc + 1..], block.terminator);
            && (i.Const? ==> Canonical(i.value))
            && Freed(c) == HConfig(m, c.control)
            && match HExecute(i, m)
               case Ok(n) => HStep(f, c, true) == HConfig(n, HAt(block, pc + 1))
               case Err(e) => HStep(f, c, true).control == HFailed(e)
  {
    hide Released, HExecute, FrameDropped;
    var block, pc := c.control.block, c.control.pc;
    assert block.instructions[pc..] == [block.instructions[pc]] + block.instructions[pc + 1..];
  }

  lemma TerminatorAhead(f: Function, c: HConfig)
    requires c.control.HAt? && c.control.pc == |c.control.block.instructions|
    ensures HStep(f, c, true) == HTerminate(f, c.mem, c.control.block.terminator)
  {
  }

  lemma SoundIsGood(m: Mem, block: Block, held: multiset<Loc>, callers: map<nat, Value>)
    requires Sound(HConfig(m, HAt(block, 0)), held, callers)
    ensures Good(m)
  {
  }

  lemma StoppedSound(m: Mem, block: Block, e: RuntimeError, held: multiset<Loc>, callers: map<nat, Value>)
    requires Sound(HConfig(m, HAt(block, 0)), held, callers)
    ensures Sound(HFail(m, e), held, callers)
  {
    hide Good, ViewOf, FrameDropped;
    FailSound(m, e);
  }

  /** Inside a frame soundness does not depend on the point of control. */
  lemma SoundAnywhere(m: Mem, block: Block, other: Block, held: multiset<Loc>, callers: map<nat, Value>)
    ensures Sound(HConfig(m, HAt(block, 0)), held, callers) <==> Sound(HConfig(m, HAt(other, 0)), held, callers)
  {
  }

  /** A run that ends `n` steps later ends `used + n` steps from its start. */
  lemma EndsLater(f: Function, start: HConfig, used: nat, n: nat, budget: nat, after: Mem, outcome: BlockOutcome)
    requires used <= budget && Ends(f, HRun(f, start, true, used), n, budget - used, after, outcome)
    ensures Ends(f, start, used + n, budget, after, outcome)
  {
    hide HStep, HRun;
    RunAddsUp(f, start, used, n);
  }

  /** Leaving a block keeps the frame sound, in the block entered or where the body stops. */
  lemma BlockLeft(f: Function, before: Mem, block: Block, after: Mem, next: Result<Block, BlockOutcome>,
                  held: multiset<Loc>, callers: map<nat, Value>)
    requires Sound(HConfig(before, HAt(block, 0)), held, callers)
    requires Leaves(f, before, block.terminator, after, next)
    ensures next.Ok? ==>
      && HStep(f, HConfig(before, HAt(block, |block.instructions|)), true) == HConfig(after, HAt(next.value, 0))
      && Sound(HConfig(after, HAt(next.value, 0)), held, callers) && next.value in f.blocks
    ensures next.Err? && next.error.Stopped? ==> Sound(HConfig(after, HAt(block, 0)), held, callers)
    ensures next.Err? ==> !next.error.OutOfSteps?
  {
    hide Good, ViewOf, HStep, HTerminate, Live, Locs;
    TerminatorAhead(f, HConfig(before, HAt(block, |block.instructions|)));
    TerminateRefines(f, before, block.terminator);
    BlockEntered(f, before, block.terminator);
  }

  lemma LeftEnds(f: Function, start: HConfig, used: nat, budget: nat, before: Mem, block: Block, after: Mem,
                 next: Result<Block, BlockOutcome>)
    requires HRun(f, start, true, used) == HConfig(before, HAt(block, |block.instructions|)) && used < budget
    requires Leaves(f, before, block.terminator, after, next) && next.Err?
    ensures Ends(f, start, used, budget, after, next.error)
  {
    hide HStep, HTerminate, HRun;
    TerminatorAhead(f, HConfig(before, HAt(block, |block.instructions|)));
  }

  lemma BlockEntered(f: Function, m: Mem, t: Terminator)
    ensures HTerminate(f, m, t).control.HAt? ==> HTerminate(f, m, t).control.block in f.blocks
  {
  }

  lemma RunStarts(f: Function, c: HConfig)
    ensures HRun(f, c, true, 0) == c
  {
  }

  lemma RunGrows(f: Function, c: HConfig, n: nat)
    ensures HRun(f, c, true, n + 1) == HStep(f, HRun(f, c, true, n), true)
  {
  }

  lemma {:induction false} RunAddsUp(f: Function, c: HConfig, a: nat, b: nat)
    ensures HRun(f, HRun(f, c, true, a), true, b) == HRun(f, c, true, a + b)
  {
    hide HStep;
    if b > 0 {
      RunAddsUp(f, c, a, b - 1);
    }
  }
}
