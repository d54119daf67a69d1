/** Dropping, before a consuming site, the dead registers that would keep its buffer shared. */
module RcRelease {
  import opened Program
  import opened PureMachine
  import opened Simulation
  import opened RcHeap
  import opened RcMachine
  import opened Wrappers
  import KeyOrder

  /** The register a consuming site takes over. */
  function ConsumingReceiver(i: Instruction): Option<ValueId> {
    if i.Append? && i.consumesLhs then Some(i.lhs) else None
  }

  /** The registers a run of instructions defines, in order. */
  function Dests(instructions: seq<Instruction>): (r: seq<ValueId>)
    ensures forall v :: v in r <==> DefinedIn(instructions, v)
    decreases |instructions|
  {
    if instructions == [] then []
    else
      var last := |instructions| - 1;
      DestsGrow(instructions);
      Dests(instructions[..last]) + match Dest(instructions[last]) { case Some(v) => [v] case None => [] }
  }

  lemma DestsGrow(instructions: seq<Instruction>)
    requires instructions != []
    ensures var last := |instructions| - 1;
            forall v :: DefinedIn(instructions, v) <==>
              DefinedIn(instructions[..last], v) || Defines(instructions[last], v)
  {
    var last := |instructions| - 1;
    forall v | DefinedIn(instructions[..last], v) ensures DefinedIn(instructions, v) {
      var k :| 0 <= k < last && Defines(instructions[..last][k], v);
      assert Defines(instructions[k], v);
    }
    forall v | DefinedIn(instructions, v) && !Defines(instructions[last], v)
      ensures DefinedIn(instructions[..last], v)
    {
      var k :| 0 <= k < |instructions| && Defines(instructions[k], v);
      assert Defines(instructions[..last][k], v);
    }
  }

  function RemovedAll(m: Mem, ids: seq<ValueId>): Mem {
    if ids == [] then m else Removed(RemovedAll(m, ids[..|ids| - 1]), ids[|ids| - 1])
  }

  function Listed(ids: seq<ValueId>): set<ValueId> {
    set v | v in ids
  }

  lemma ListedGrow(ids: seq<ValueId>)
    requires ids != []
    ensures Listed(ids) == Listed(ids[..|ids| - 1]) + {ids[|ids| - 1]}
  {
    assert ids == ids[..|ids| - 1] + [ids[|ids| - 1]];
  }

  /** The bindings with some registers gone. */
  function Without(view: View, gone: set<ValueId>): View {
    view.(values := view.values - gone)
  }

  lemma WithoutTwice(view: View, a: set<ValueId>, b: set<ValueId>)
    ensures Without(Without(view, a), b) == Without(view, a + b)
  {
    assert (view.values - a) - b == view.values - (a + b);
  }

  lemma {:induction false} RemovedAllBecomes(m: Mem, ids: seq<ValueId>)
    requires Good(m)
    ensures Becomes(m, RemovedAll(m, ids), Without(ViewOf(m), Listed(ids)))
  {
    hide Good, Removed, ViewOf;
    if ids == [] {
      assert ViewOf(m).values - {} == ViewOf(m).values;
    } else {
      var rest, last := ids[..|ids| - 1], ids[|ids| - 1];
      RemovedAllBecomes(m, rest);
      RemovedGood(RemovedAll(m, rest), last);
      WithoutTwice(ViewOf(m), Listed(rest), {last});
      ListedGrow(ids);
    }
  }

  /** Both handles are views of the same storage, of a kind consuming sites change in place. */
  predicate SharesStorage(a: Handle, b: Handle) {
    SameByteKind(a, b) && a.loc == b.loc
  }

  /** The register holds the receiver's storage and nothing reads it before the frame ends. */
  predicate Lingers(values: Slots, receiver: ValueId, remaining: seq<Instruction>, t: Terminator, id: ValueId)
    requires receiver in values && id in values
  {
    id != receiver && SharesStorage(values[id], values[receiver]) && !TerminatorUses(t, id) && !UsedIn(remaining, id)
  }

  function ExitDead(values: Slots, receiver: ValueId, remaining: seq<Instruction>, t: Terminator): set<ValueId>
    requires receiver in values
  {
    set id | id in values && Lingers(values, receiver, remaining, t, id)
  }

  /** The registers released when the block has `remaining` left to execute. */
  function ReleasedIds(m: Mem, remaining: seq<Instruction>, t: Terminator): seq<ValueId> {
    if remaining == [] || ConsumingReceiver(remaining[0]).None? then []
    else
      var receiver := ConsumingReceiver(remaining[0]).value;
      var dests := Dests(remaining);
      var cleared := RemovedAll(m, dests);
      if Exits(t) && receiver in cleared.values then
        dests + KeyOrder.InKeyOrder(ExitDead(cleared.values, receiver, remaining, t))
      else dests
  }

  function Released(m: Mem, remaining: seq<Instruction>, t: Terminator): Mem {
    RemovedAll(m, ReleasedIds(m, remaining, t))
  }

  /** Only dead registers are released. */
  lemma ReleasedAreDead(m: Mem, b: Block, pc: nat, v: ValueId)
    requires pc <= |b.instructions| && v in ReleasedIds(m, b.instructions[pc..], b.terminator)
    ensures DeadAt(b, pc, v)
  {
  }

  lemma RemovedValues(m: Mem, id: ValueId)
    ensures Removed(m, id).values == m.values - {id}
  {
  }

  lemma {:induction false} RemovedAllValues(m: Mem, ids: seq<ValueId>)
    ensures RemovedAll(m, ids).values == m.values - Listed(ids)
  {
    hide Removed;
    if ids == [] {
      assert m.values - {} == m.values;
    } else {
      var rest, last := ids[..|ids| - 1], ids[|ids| - 1];
      RemovedAllValues(m, rest);
      RemovedValues(RemovedAll(m, rest), last);
      ListedGrow(ids);
      assert (m.values - Listed(rest)) - {last} == m.values - (Listed(rest) + {last});
    }
  }

  /** The register keeps the receiver's storage shared past its last use in an exiting block. */
  predicate HeldForNothing(values: Slots, remaining: seq<Instruction>, t: Terminator, v: ValueId)
    requires remaining != [] && ConsumingReceiver(remaining[0]).Some? && v in values
  {
    var receiver := ConsumingReceiver(remaining[0]).value;
    && (t.Return? || t.TailCall?)
    && receiver in values && !DefinedIn(remaining, receiver)
    && v != receiver && !TerminatorUses(t, v) && !UsedIn(remaining, v)
    && match (values[v], values[receiver])
       case (HString(a), HString(b)) => a == b
       case (HBinary(a), HBinary(b)) => a == b
       case _ => false
  }

  /** Exactly the registers about to be redefined and those held for nothing are released. */
  lemma ReleasedExactly(m: Mem, remaining: seq<Instruction>, t: Terminator, v: ValueId)
    requires remaining != [] && ConsumingReceiver(remaining[0]).Some?
    ensures v in Released(m, remaining, t).values <==>
            v in m.values && !DefinedIn(remaining, v) && !HeldForNothing(m.values, remaining, t, v)
  {
    hide RemovedAll, DefinedIn, UsedIn, TerminatorUses, KeyOrder.InKeyOrder;
    RemovedAllValues(m, Dests(remaining));
    RemovedAllValues(m, ReleasedIds(m, remaining, t));
  }

  /** Releasing changes nothing but the registers it drops. */
  lemma ReleasedBecomes(m: Mem, remaining: seq<Instruction>, t: Terminator)
    requires Good(m)
    ensures Becomes(m, Released(m, remaining, t), Without(ViewOf(m), Listed(ReleasedIds(m, remaining, t))))
  {
    RemovedAllBecomes(m, ReleasedIds(m, remaining, t));
  }
}
