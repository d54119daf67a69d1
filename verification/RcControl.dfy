/** Leaving a block over shared buffers: branch edges, returns and tail calls. */
module RcControl {
  import opened Values
  import opened Program
  import opened PureMachine
  import opened RcHeap
  import opened RcMachine
  import opened RcRelease
  import opened Wrappers
  import KeyOrder

  // ----- lists of handles in flight -----

  function AllLocs(hs: seq<Handle>): multiset<Loc> {
    if hs == [] then multiset{} else AllLocs(hs[..|hs| - 1]) + Locs(hs[|hs| - 1])
  }

  function SharedAll(m: Mem, hs: seq<Handle>): Mem {
    if hs == [] then m else Shared(SharedAll(m, hs[..|hs| - 1]), hs[|hs| - 1])
  }

  function Meanings(cells: Cells, hs: seq<Handle>): (r: seq<Value>)
    ensures |r| == |hs|
    ensures forall i :: 0 <= i < |hs| ==> r[i] == Denote(cells, hs[i])
  {
    seq(|hs|, i requires 0 <= i < |hs| => Denote(cells, hs[i]))
  }

  ghost predicate EachLive(cells: Cells, hs: seq<Handle>) {
    forall i :: 0 <= i < |hs| ==> Live(cells, hs[i])
  }

  /** Cloning a list of values puts one reference to each in flight. */
  lemma {:induction false} SharedAllGood(m: Mem, hs: seq<Handle>)
    requires Good(m) && EachLive(m.cells, hs)
    ensures Good(SharedAll(m, hs)) && ViewOf(SharedAll(m, hs)) == ViewOf(m)
    ensures SharedAll(m, hs).held == m.held + AllLocs(hs)
    ensures forall k :: Live(m.cells, k) ==> SameRead(m, SharedAll(m, hs), k)
  {
    hide Good, Shared, ViewOf, Live, Denote, Locs;
    if hs != [] {
      var rest, last := hs[..|hs| - 1], hs[|hs| - 1];
      SharedAllGood(m, rest);
      SharedGood(SharedAll(m, rest), last);
      forall k | Live(m.cells, k) ensures SameRead(m, SharedAll(m, hs), k) {
        SharedReads(SharedAll(m, rest), last, k);
      }
    }
  }

  /** Bind names to handles in flight, first to last. */
  function BindHandles(m: Mem, names: seq<ValueId>, hs: seq<Handle>): Mem
    requires |names| == |hs|
  {
    if names == [] then m
    else PutIn(BindHandles(m, names[..|names| - 1], hs[..|hs| - 1]), names[|names| - 1], hs[|hs| - 1])
  }

  lemma MeaningsPrefix(cells: Cells, hs: seq<Handle>, n: nat)
    requires n <= |hs|
    ensures Meanings(cells, hs)[..n] == Meanings(cells, hs[..n])
  {
  }

  /** Binding one more handle once the ones before it are bound. */
  lemma BindOne(m: Mem, rest: Mem, values: Registers, name: ValueId, h: Handle, others: multiset<Loc>)
    requires Good(rest) && others + Locs(h) <= m.held && rest.held == m.held - others
    requires SameRead(m, rest, h) && ViewOf(rest) == ViewOf(m).(values := values)
    ensures Good(PutIn(rest, name, h)) && PutIn(rest, name, h).held == m.held - (others + Locs(h))
    ensures ViewOf(PutIn(rest, name, h)) == ViewOf(m).(values := values[name := Denote(m.cells, h)])
  {
    hide Good, PutIn, ViewOf, Live, Denote, Locs;
    HeldLess(m.held, others, Locs(h));
    PutInGood(rest, name, h);
  }

  lemma {:induction false} BindHandlesGood(m: Mem, names: seq<ValueId>, hs: seq<Handle>)
    requires Good(m) && |names| == |hs| && EachLive(m.cells, hs) && AllLocs(hs) <= m.held
    ensures Good(BindHandles(m, names, hs)) && BindHandles(m, names, hs).held == m.held - AllLocs(hs)
    ensures ViewOf(BindHandles(m, names, hs)) ==
            ViewOf(m).(values := BindAll(ViewOf(m).values, names, Meanings(m.cells, hs)))
    decreases |names|, 1
  {
    if names == [] {
      assert m.held - multiset{} == m.held;
    } else {
      hide Good, PutIn, ViewOf, Live, SameRead, Denote, Locs, BindAll;
      var n := |names| - 1;
      var bound := Meanings(m.cells, hs);
      HeldLess(m.held, AllLocs(hs[..n]), Locs(hs[n]));
      BindHandlesGood(m, names[..n], hs[..n]);
      BindHandlesReads(m, names[..n], hs[..n], hs[n]);
      MeaningsPrefix(m.cells, hs, n);
      BindAllLast(ViewOf(m).values, names, bound);
      BindOne(m, BindHandles(m, names[..n], hs[..n]), BindAll(ViewOf(m).values, names[..n], bound[..n]), names[n],
        hs[n], AllLocs(hs[..n]));
    }
  }

  lemma HeldLess(h: multiset<Loc>, a: multiset<Loc>, b: multiset<Loc>)
    requires a + b <= h
    ensures a <= h && b <= h - a && h - a - b == h - (a + b)
  {
  }

  lemma {:induction false} BindHandlesReads(m: Mem, names: seq<ValueId>, hs: seq<Handle>, k: Handle)
    requires Good(m) && |names| == |hs| && EachLive(m.cells, hs)
    requires Live(m.cells, k) && AllLocs(hs) + Locs(k) <= m.held
    ensures SameRead(m, BindHandles(m, names, hs), k)
    decreases |names|, 0
  {
    hide Good, PutIn, ViewOf, Live, Denote, Locs;
    if names != [] {
      var n := |names| - 1;
      BindHandlesGood(m, names[..n], hs[..n]);
      BindHandlesReads(m, names[..n], hs[..n], k);
      PutInReads(BindHandles(m, names[..n], hs[..n]), names[n], hs[n], k);
    }
  }

  function DroppedAll(m: Mem, hs: seq<Handle>): Mem {
    if hs == [] then m else Dropped(DroppedAll(m, hs[..|hs| - 1]), hs[|hs| - 1])
  }

  lemma {:induction false} DroppedAllGood(m: Mem, hs: seq<Handle>)
    requires Good(m) && EachLive(m.cells, hs) && AllLocs(hs) <= m.held
    ensures Good(DroppedAll(m, hs)) && DroppedAll(m, hs).held == m.held - AllLocs(hs)
    ensures ViewOf(DroppedAll(m, hs)) == ViewOf(m)
    decreases |hs|, 1
  {
    hide Good, Dropped, ViewOf, Live, Denote, Locs;
    if hs != [] {
      var n := |hs| - 1;
      HeldLess(m.held, AllLocs(hs[..n]), Locs(hs[n]));
      DroppedAllGood(m, hs[..n]);
      DroppedAllReads(m, hs[..n], hs[n]);
      DroppedGood(DroppedAll(m, hs[..n]), hs[n]);
    }
  }

  lemma {:induction false} DroppedAllReads(m: Mem, hs: seq<Handle>, k: Handle)
    requires Good(m) && EachLive(m.cells, hs) && Live(m.cells, k) && AllLocs(hs) + Locs(k) <= m.held
    ensures SameRead(m, DroppedAll(m, hs), k)
    decreases |hs|, 0
  {
    hide Good, Dropped, ViewOf, Live, Denote, Locs;
    if hs != [] {
      var n := |hs| - 1;
      DroppedAllGood(m, hs[..n]);
      DroppedAllReads(m, hs[..n], k);
      DroppedAllReads(m, hs[..n], hs[n]);
      DroppedReads(DroppedAll(m, hs[..n]), hs[n], k);
    }
  }

  // ----- the end of a frame -----

  function RegistersDropped(m: Mem): Mem {
    RemovedAll(m, KeyOrder.InKeyOrder(m.values.Keys))
  }

  /** Drop every register and every local slot. */
  function FrameDropped(m: Mem): Mem {
    Swapped(RegistersDropped(Swapped(RegistersDropped(m))))
  }

  lemma RegistersDroppedBecomes(m: Mem)
    requires Good(m)
    ensures Becomes(m, RegistersDropped(m), ViewOf(m).(values := map[])) && RegistersDropped(m).values == map[]
  {
    var ids := KeyOrder.InKeyOrder(m.values.Keys);
    RemovedAllBecomes(m, ids);
    assert Listed(ids) == m.values.Keys;
    assert ViewOf(m).values - m.values.Keys == map[];
    assert ViewOf(RegistersDropped(m)).values.Keys == RegistersDropped(m).values.Keys;
  }

  lemma {:induction false} RemovedAllReads(m: Mem, ids: seq<ValueId>, k: Handle)
    requires Good(m) && Live(m.cells, k) && Locs(k) <= m.held
    ensures SameRead(m, RemovedAll(m, ids), k)
  {
    hide Good, Removed, ViewOf, Live, Denote, Locs;
    if ids != [] {
      RemovedAllReads(m, ids[..|ids| - 1], k);
      RemovedAllBecomes(m, ids[..|ids| - 1]);
      RemovedReads(RemovedAll(m, ids[..|ids| - 1]), ids[|ids| - 1], k);
    }
  }

  lemma FrameDroppedBecomes(m: Mem)
    requires Good(m)
    ensures Becomes(m, FrameDropped(m), View(map[], map[], ViewOf(m).callers))
    ensures FrameDropped(m).values == map[] && FrameDropped(m).locals == map[]
  {
    hide Good, RegistersDropped;
    RegistersDroppedBecomes(m);
    SwappedGood(RegistersDropped(m));
    RegistersDroppedBecomes(Swapped(RegistersDropped(m)));
    SwappedGood(RegistersDropped(Swapped(RegistersDropped(m))));
  }

  lemma FrameDroppedReads(m: Mem, k: Handle)
    requires Good(m) && Live(m.cells, k) && Locs(k) <= m.held
    ensures SameRead(m, FrameDropped(m), k)
  {
    hide Good, Live, Denote, Locs;
    var once := Swapped(RegistersDropped(m));
    RegistersDroppedBecomes(m);
    RemovedAllReads(m, KeyOrder.InKeyOrder(m.values.Keys), k);
    SwappedGood(RegistersDropped(m));
    RemovedAllReads(once, KeyOrder.InKeyOrder(once.values.Keys), k);
  }

  // ----- configurations -----

  datatype HControl = HAt(block: Block, pc: nat) | HDone(handle: Handle) | HFailed(error: RuntimeError)

  datatype HConfig = HConfig(mem: Mem, control: HControl)

  /** Abandon the frame with an error. */
  function HFail(m: Mem, e: RuntimeError): HConfig {
    HConfig(FrameDropped(m), HFailed(e))
  }

  /** A fresh frame takes the arguments in flight over; surplus ones are dropped. */
  function HEnter(f: Function, m: Mem, args: seq<Handle>): HConfig {
    var n := Min(|f.params|, |args|);
    var bound := BindHandles(FrameDropped(m), f.params[..n], args[..n]);
    var entered := DroppedAll(bound, args[n..]);
    if f.blocks == [] then HFail(entered, SealViolation) else HConfig(entered, HAt(f.blocks[0], 0))
  }

  /** Follow a branch edge: every argument is cloned before any parameter is rebound. */
  function HJump(f: Function, m: Mem, target: Target): HConfig {
    var found := FindBlock(f.blocks, target.block);
    if found.None? || |target.args| != |found.value.params| then HFail(m, SealViolation)
    else
      var args := LookupAll(m.values, target.args);
      if args.Err? then HFail(m, args.error)
      else HConfig(BindHandles(SharedAll(m, args.value), found.value.params, args.value), HAt(found.value, 0))
  }

  /** Return a handle in flight, coerced to the declared return type, and end the frame. */
  function HReturn(f: Function, m: Mem, h: Handle): HConfig {
    if f.returnsUnit then HConfig(FrameDropped(Dropped(m, h)), HDone(HUnit)) else HConfig(FrameDropped(m), HDone(h))
  }

  function HTerminate(f: Function, m: Mem, t: Terminator): HConfig {
    match t
    case Branch(target) => HJump(f, m, target)
    case CondBranch(cond, thenTarget, elseTarget) =>
      if cond !in m.values then HFail(m, ValueUndefined(cond))
      else if !m.values[cond].HBool? then HFail(m, ConditionMismatch)
      else HJump(f, m, if m.values[cond].truth then thenTarget else elseTarget)
    case Return(None) => HReturn(f, m, HUnit)
    case Return(Some(id)) =>
      if id in m.values then HReturn(f, Shared(m, m.values[id]), m.values[id]) else HFail(m, ValueUndefined(id))
    case TailCall(args) =>
      var handles := LookupAll(m.values, args);
      if handles.Err? then HFail(m, handles.error) else HEnter(f, SharedAll(m, handles.value), handles.value)
    case Unreachable => HFail(m, UnreachableExecuted)
  }

  /**
   What holds between steps. Counts are exact; the callers' bindings stand for
   what they stood for; nothing is in flight but what was before the call and,
   once the call is over, its result; and then the frame is gone.
   */
  ghost predicate Sound(c: HConfig, held: multiset<Loc>, callers: map<nat, Value>) {
    && Good(c.mem) && ViewOf(c.mem).callers == callers
    && match c.control
       case HAt(_, _) => c.mem.held == held
       case HDone(h) =>
         && c.mem.held == held + Locs(h) && Live(c.mem.cells, h)
         && c.mem.values == map[] && c.mem.locals == map[]
       case HFailed(_) => c.mem.held == held && c.mem.values == map[] && c.mem.locals == map[]
  }

  /** The configuration over plain values that a heap configuration stands for. */
  ghost predicate StandsFor(c: HConfig, p: Config) {
    match c.control
    case HAt(block, pc) => p == Config(FrameOf(c.mem), At(block, pc))
    case HDone(h) => p.control == Done(Denote(c.mem.cells, h))
    case HFailed(e) => p.control == Failed(e)
  }

  lemma FailSound(m: Mem, e: RuntimeError)
    requires Good(m)
    ensures Sound(HFail(m, e), m.held, ViewOf(m).callers)
  {
    hide Good, FrameDropped;
    FrameDroppedBecomes(m);
  }

  lemma {:induction false} LookupAllDenotes(cells: Cells, values: Slots, ids: seq<ValueId>)
    ensures match LookupAll(values, ids)
            case Ok(hs) => LookupAll(DenoteAll(cells, values), ids) == Ok(Meanings(cells, hs))
            case Err(e) => LookupAll(DenoteAll(cells, values), ids) == Err(e)
  {
    hide Denote;
    if ids != [] {
      LookupAllDenotes(cells, values, ids[1..]);
      if LookupAll(values, ids).Ok? {
        MeaningsCons(cells, values[ids[0]], LookupAll(values, ids[1..]).value);
      }
    }
  }

  lemma MeaningsCons(cells: Cells, h: Handle, rest: seq<Handle>)
    ensures Meanings(cells, [h] + rest) == [Denote(cells, h)] + Meanings(cells, rest)
  {
    hide Denote;
  }

  lemma LookedUpLive(m: Mem, ids: seq<ValueId>)
    requires Good(m) && LookupAll(m.values, ids).Ok?
    ensures EachLive(m.cells, LookupAll(m.values, ids).value)
  {
  }

  lemma SharedMeanings(m: Mem, n: Mem, hs: seq<Handle>)
    requires EachLive(m.cells, hs) && forall i :: 0 <= i < |hs| ==> SameRead(m, n, hs[i])
    ensures EachLive(n.cells, hs) && Meanings(n.cells, hs) == Meanings(m.cells, hs)
  {
  }

  lemma HeldBack(h: multiset<Loc>, a: multiset<Loc>)
    ensures a <= h + a && h + a - a == h
  {
  }

  /** A branch edge over shared buffers is the edge over plain values. */
  lemma JumpRefines(f: Function, m: Mem, target: Target)
    requires Good(m)
    ensures Sound(HJump(f, m, target), m.held, ViewOf(m).callers)
    ensures StandsFor(HJump(f, m, target), Jump(f, FrameOf(m), target))
  {
    hide Good, Live, Denote, Locs, FrameDropped;
    var found := FindBlock(f.blocks, target.block);
    var args := LookupAll(m.values, target.args);
    LookupAllDenotes(m.cells, m.values, target.args);
    if found.None? || |target.args| != |found.value.params| {
      FailSound(m, SealViolation);
    } else if args.Err? {
      FailSound(m, args.error);
    } else {
      var hs := args.value;
      LookedUpLive(m, target.args);
      SharedAllGood(m, hs);
      SharedMeanings(m, SharedAll(m, hs), hs);
      HeldBack(m.held, AllLocs(hs));
      BindHandlesGood(SharedAll(m, hs), found.value.params, hs);
    }
  }

  lemma {:induction false} LocsWithin(hs: seq<Handle>, i: nat)
    requires i < |hs|
    ensures Locs(hs[i]) <= AllLocs(hs)
  {
    if i < |hs| - 1 {
      LocsWithin(hs[..|hs| - 1], i);
    }
  }

  lemma {:induction false} LocsSplit(hs: seq<Handle>, n: nat)
    requires n <= |hs|
    ensures AllLocs(hs) == AllLocs(hs[..n]) + AllLocs(hs[n..])
  {
    hide Locs;
    if n < |hs| {
      var last := |hs| - 1;
      LocsSplit(hs[..last], n);
      assert hs[..last][..n] == hs[..n];
      assert hs[..last][n..] == hs[n..][..last - n];
      Regrouped(AllLocs(hs[..n]), AllLocs(hs[n..][..last - n]), Locs(hs[last]));
    } else {
      assert hs[..n] == hs;
    }
  }

  lemma Regrouped(a: multiset<Loc>, b: multiset<Loc>, c: multiset<Loc>)
    ensures a + b + c == a + (b + c)
  {
  }

  lemma FrameDroppedCarries(m: Mem, args: seq<Handle>)
    requires Good(m) && EachLive(m.cells, args) && AllLocs(args) <= m.held
    ensures EachLive(FrameDropped(m).cells, args) && Meanings(FrameDropped(m).cells, args) == Meanings(m.cells, args)
  {
    hide Good, Live, Denote, Locs, FrameDropped;
    forall i | 0 <= i < |args| ensures SameRead(m, FrameDropped(m), args[i]) {
      LocsWithin(args, i);
      FrameDroppedReads(m, args[i]);
    }
    SharedMeanings(m, FrameDropped(m), args);
  }

  lemma BoundCarries(m: Mem, names: seq<ValueId>, hs: seq<Handle>, rest: seq<Handle>)
    requires Good(m) && |names| == |hs| && EachLive(m.cells, hs) && EachLive(m.cells, rest)
    requires AllLocs(hs) + AllLocs(rest) <= m.held
    ensures EachLive(BindHandles(m, names, hs).cells, rest)
  {
    hide Good, Live, Denote, Locs, BindHandles;
    forall i | 0 <= i < |rest| ensures SameRead(m, BindHandles(m, names, hs), rest[i]) {
      LocsWithin(rest, i);
      BindHandlesReads(m, names, hs, rest[i]);
    }
  }

  lemma HeldSplit(h: multiset<Loc>, a: multiset<Loc>, b: multiset<Loc>)
    ensures a + b <= h + (a + b) && a <= h + (a + b) && b <= h + (a + b) - a
    ensures h + (a + b) - a - b == h
  {
  }

  /** Entering a function over shared buffers binds its arguments and nothing else. */
  lemma EnterRefines(f: Function, m: Mem, args: seq<Handle>, held: multiset<Loc>)
    requires Good(m) && EachLive(m.cells, args) && m.held == held + AllLocs(args)
    ensures Sound(HEnter(f, m, args), held, ViewOf(m).callers)
    ensures StandsFor(HEnter(f, m, args), Enter(f, Meanings(m.cells, args)))
  {
    hide Good, Live, Denote, Locs, FrameDropped, BindHandles, DroppedAll, BindAll;
    var n := Min(|f.params|, |args|);
    var fresh0 := FrameDropped(m);
    LocsSplit(args, n);
    HeldSplit(held, AllLocs(args[..n]), AllLocs(args[n..]));
    FrameDroppedBecomes(m);
    FrameDroppedCarries(m, args);
    BindHandlesGood(fresh0, f.params[..n], args[..n]);
    BoundCarries(fresh0, f.params[..n], args[..n], args[n..]);
    var bound := BindHandles(fresh0, f.params[..n], args[..n]);
    DroppedAllGood(bound, args[n..]);
    MeaningsPrefix(fresh0.cells, args, n);
    if f.blocks == [] {
      FailSound(DroppedAll(bound, args[n..]), SealViolation);
    }
  }

  lemma ReturnRefines(f: Function, m: Mem, h: Handle, held: multiset<Loc>)
    requires Good(m) && Live(m.cells, h) && m.held == held + Locs(h)
    ensures Sound(HReturn(f, m, h), held, ViewOf(m).callers)
    ensures HReturn(f, m, h).control.HDone?
    ensures Denote(HReturn(f, m, h).mem.cells, HReturn(f, m, h).control.handle) == CoerceReturn(f, Denote(m.cells, h))
  {
    hide Good, FrameDropped, Dropped;
    HeldBack(held, Locs(h));
    if f.returnsUnit {
      DroppedGood(m, h);
      FrameDroppedBecomes(Dropped(m, h));
      assert held + multiset{} == held;
    } else {
      FrameDroppedBecomes(m);
      FrameDroppedReads(m, h);
    }
  }

  /** Leaving a block over shared buffers is leaving it over plain values. */
  lemma TerminateRefines(f: Function, m: Mem, t: Terminator)
    requires Good(m)
    ensures Sound(HTerminate(f, m, t), m.held, ViewOf(m).callers)
    ensures StandsFor(HTerminate(f, m, t), Terminate(f, FrameOf(m), t))
  {
    hide Good, Locs, FrameDropped, HJump, Jump, HReturn, HEnter, Enter, Shared, SharedAll;
    match t
    case Branch(target) => JumpRefines(f, m, target);
    case CondBranch(cond, thenTarget, elseTarget) =>
      if cond !in m.values {
        FailSound(m, ValueUndefined(cond));
      } else {
        FailSound(m, ConditionMismatch);
        JumpRefines(f, m, thenTarget);
        JumpRefines(f, m, elseTarget);
      }
    case Return(None) =>
      NothingInFlight(m.held);
      ReturnRefines(f, m, HUnit, m.held);
    case Return(Some(id)) =>
      if id in m.values {
        BindingsLive(m, id);
        SharedMakes(m, m.values[id]);
        ReturnRefines(f, Shared(m, m.values[id]), m.values[id], m.held);
      } else {
        FailSound(m, ValueUndefined(id));
      }
    case TailCall(args) =>
      var handles := LookupAll(m.values, args);
      LookupAllDenotes(m.cells, m.values, args);
      if handles.Err? {
        FailSound(m, handles.error);
      } else {
        LookedUpLive(m, args);
        SharedAllGood(m, handles.value);
        SharedMeanings(m, SharedAll(m, handles.value), handles.value);
        EnterRefines(f, SharedAll(m, handles.value), handles.value, m.held);
      }
    case Unreachable => FailSound(m, UnreachableExecuted);
  }

  lemma NothingInFlight(held: multiset<Loc>)
    ensures held + Locs(HUnit) == held
  {
  }
}
