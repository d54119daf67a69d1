/** The part of the sealed IR the copy-avoidance machinery works on. */
module Program {
  import opened Values
  import opened IntOps
  import opened Wrappers

  type ValueId = nat
  type LocalId = nat
  type BlockId = nat

  datatype Instruction =
    | Const(dest: ValueId, value: Value)
    | LocalDecl(local: LocalId)
    | LocalRead(dest: ValueId, local: LocalId)
    | LocalWrite(local: LocalId, source: ValueId)
    | ConsumeLocal(local: LocalId)
    | Clone(dest: ValueId, source: ValueId)
    | Append(consumesLhs: bool, dest: ValueId, kind: ConcatKind, lhs: ValueId, rhs: ValueId)
    | BinaryOp(dest: ValueId, op: BinOp, ty: IntType, lhs: ValueId, rhs: ValueId)
    | DropLocal(local: LocalId)
    | DropValue(source: ValueId)

  datatype Target = Target(block: BlockId, args: seq<ValueId>)

  datatype Terminator =
    | Branch(target: Target)
    | CondBranch(cond: ValueId, thenTarget: Target, elseTarget: Target)
    | Return(value: Option<ValueId>)
    | TailCall(args: seq<ValueId>)
    | Unreachable

  datatype Block = Block(id: BlockId, params: seq<ValueId>, instructions: seq<Instruction>, terminator: Terminator)

  datatype Function = Function(params: seq<ValueId>, blocks: seq<Block>, returnsUnit: bool)

  /** The register an instruction defines, if any. */
  function Dest(i: Instruction): Option<ValueId> {
    match i
    case Const(dest, _) => Some(dest)
    case LocalRead(dest, _) => Some(dest)
    case Clone(dest, _) => Some(dest)
    case Append(_, dest, _, _, _) => Some(dest)
    case BinaryOp(dest, _, _, _, _) => Some(dest)
    case _ => None
  }

  /** Whether the instruction reads `v` as an operand. */
  predicate Uses(i: Instruction, v: ValueId) {
    match i
    case LocalWrite(_, source) => source == v
    case Clone(_, source) => source == v
    case Append(_, _, _, lhs, rhs) => lhs == v || rhs == v
    case BinaryOp(_, _, _, lhs, rhs) => lhs == v || rhs == v
    case DropValue(source) => source == v
    case _ => false
  }

  /** Whether `v` flows out of the block through the terminator. */
  predicate TerminatorUses(t: Terminator, v: ValueId) {
    match t
    case Branch(target) => v in target.args
    case CondBranch(cond, thenTarget, elseTarget) => cond == v || v in thenTarget.args || v in elseTarget.args
    case Return(value) => value == Some(v)
    case TailCall(args) => v in args
    case Unreachable => false
  }

  /** The terminator leaves the frame. */
  predicate Exits(t: Terminator) {
    t.Return? || t.TailCall?
  }

  /** The first block with the given id. */
  function FindBlock(blocks: seq<Block>, id: BlockId): (r: Option<Block>)
    ensures r.Some? ==> r.value in blocks && r.value.id == id
    ensures r.None? <==> forall b :: b in blocks ==> b.id != id
  {
    if blocks == [] then None
    else if blocks[0].id == id then Some(blocks[0])
    else FindBlock(blocks[1..], id)
  }

  predicate Defines(i: Instruction, v: ValueId) {
    Dest(i) == Some(v)
  }

  /** Some instruction of the run defines `v`. */
  predicate DefinedIn(instructions: seq<Instruction>, v: ValueId) {
    exists k :: 0 <= k < |instructions| && Defines(instructions[k], v)
  }

  predicate UsedIn(instructions: seq<Instruction>, v: ValueId) {
    exists k :: 0 <= k < |instructions| && Uses(instructions[k], v)
  }

  /**
   What sealing guarantees inside one block: no instruction reads a register
   that is defined at or after it in the same block.
   */
  ghost predicate DefinedBeforeUse(b: Block) {
    forall j, v :: 0 <= j < |b.instructions| && Uses(b.instructions[j], v) ==> !DefinedIn(b.instructions[j..], v)
  }

  ghost predicate Sealed(f: Function) {
    forall b :: b in f.blocks ==> DefinedBeforeUse(b)
  }

  /** Constants are well formed: `Bits` payloads carry zero padding. */
  ghost predicate CanonicalConstants(f: Function) {
    forall b, k :: b in f.blocks && 0 <= k < |b.instructions| && b.instructions[k].Const? ==>
      Canonical(b.instructions[k].value)
  }

  // ----- what the seal walk checks of a block -----

  /** The walk over one block, given the registers in scope when it is reached. */
  ghost predicate SealAccepts(defined: set<ValueId>, instructions: seq<Instruction>)
    decreases |instructions|
  {
    instructions == [] ||
    (var i := instructions[0];
     && (forall v :: Uses(i, v) ==> v in defined)
     && (Dest(i).Some? ==> Dest(i).value !in defined)
     && SealAccepts(if Dest(i).Some? then defined + {Dest(i).value} else defined, instructions[1..]))
  }

  lemma {:induction false} InScopeIsNotRedefined(defined: set<ValueId>, instructions: seq<Instruction>, v: ValueId)
    requires SealAccepts(defined, instructions) && v in defined
    ensures !DefinedIn(instructions, v)
    decreases |instructions|
  {
    if instructions != [] {
      var i := instructions[0];
      InScopeIsNotRedefined(if Dest(i).Some? then defined + {Dest(i).value} else defined, instructions[1..], v);
      forall k | 0 <= k < |instructions| ensures !Defines(instructions[k], v) {
        if k > 0 {
          assert !Defines(instructions[1..][k - 1], v);
        }
      }
    }
  }

  lemma {:induction false} SealedUse(defined: set<ValueId>, instructions: seq<Instruction>, j: nat, v: ValueId)
    requires SealAccepts(defined, instructions) && j < |instructions| && Uses(instructions[j], v)
    ensures !DefinedIn(instructions[j..], v)
    decreases j
  {
    var i := instructions[0];
    if j == 0 {
      InScopeIsNotRedefined(defined, instructions, v);
      assert instructions[0..] == instructions;
    } else {
      SealedUse(if Dest(i).Some? then defined + {Dest(i).value} else defined, instructions[1..], j - 1, v);
      assert instructions[1..][j - 1..] == instructions[j..];
    }
  }

  /** A block the seal walk accepts defines every register before using it. */
  lemma SealDefinesBeforeUse(defined: set<ValueId>, b: Block)
    requires SealAccepts(defined, b.instructions)
    ensures DefinedBeforeUse(b)
  {
    forall j, v | 0 <= j < |b.instructions| && Uses(b.instructions[j], v) ensures !DefinedIn(b.instructions[j..], v) {
      SealedUse(defined, b.instructions, j, v);
    }
  }

  /** The register is in scope before the `j`-th instruction: from the start, or defined by an earlier one. */
  predicate InScopeAt(defined: set<ValueId>, instructions: seq<Instruction>, j: nat, v: ValueId)
    requires j <= |instructions|
  {
    v in defined || DefinedIn(instructions[..j], v)
  }

  /** Every operand is in scope where it is read, and every register is new where it is defined. */
  ghost predicate SingleDefinitions(defined: set<ValueId>, instructions: seq<Instruction>) {
    && (forall j, v :: 0 <= j < |instructions| && Uses(instructions[j], v) ==> InScopeAt(defined, instructions, j, v))
    && (forall j, v :: 0 <= j < |instructions| && Defines(instructions[j], v) ==>
          !InScopeAt(defined, instructions, j, v))
  }

  function Widened(defined: set<ValueId>, i: Instruction): set<ValueId> {
    if Dest(i).Some? then defined + {Dest(i).value} else defined
  }

  lemma DefinedInCons(instructions: seq<Instruction>, j: nat, v: ValueId)
    requires j < |instructions|
    ensures DefinedIn(instructions[..j + 1], v) <==>
            Defines(instructions[0], v) || DefinedIn(instructions[1..][..j], v)
  {
    var head, tail := instructions[..j + 1], instructions[1..][..j];
    assert head == [instructions[0]] + tail;
    if DefinedIn(tail, v) {
      var k :| 0 <= k < |tail| && Defines(tail[k], v);
      assert head[k + 1] == tail[k];
    }
    if DefinedIn(head, v) {
      var k :| 0 <= k < |head| && Defines(head[k], v);
      assert k > 0 ==> tail[k - 1] == head[k];
    }
    if Defines(instructions[0], v) {
      assert Defines(head[0], v);
    }
  }

  lemma ScopeMoves(defined: set<ValueId>, instructions: seq<Instruction>, j: nat, v: ValueId)
    requires j < |instructions|
    ensures InScopeAt(defined, instructions, j + 1, v) <==>
            InScopeAt(Widened(defined, instructions[0]), instructions[1..], j, v)
    ensures InScopeAt(defined, instructions, 0, v) <==> v in defined
  {
    hide DefinedIn;
    DefinedInCons(instructions, j, v);
    NothingDefined(instructions, v);
  }

  lemma NothingDefined(instructions: seq<Instruction>, v: ValueId)
    ensures !DefinedIn(instructions[..0], v)
  {
  }

  /** The head is in order and so is the rest with what it defines in scope. */
  lemma OrderedFromHead(defined: set<ValueId>, instructions: seq<Instruction>)
    requires instructions != []
    ensures SingleDefinitions(defined, instructions) <==>
            && (forall v :: Uses(instructions[0], v) ==> v in defined)
            && (Dest(instructions[0]).Some? ==> Dest(instructions[0]).value !in defined)
            && SingleDefinitions(Widened(defined, instructions[0]), instructions[1..])
  {
    hide InScopeAt, Uses;
    var wider, rest := Widened(defined, instructions[0]), instructions[1..];
    forall j, v | 0 <= j < |rest|
      ensures InScopeAt(defined, instructions, j + 1, v) <==> InScopeAt(wider, rest, j, v)
    {
      ScopeMoves(defined, instructions, j, v);
    }
    forall v ensures InScopeAt(defined, instructions, 0, v) <==> v in defined {
      ScopeMoves(defined, instructions, 0, v);
    }
    assert forall j :: 0 <= j < |rest| ==> rest[j] == instructions[j + 1];
    if SingleDefinitions(defined, instructions) {
      HeadInOrder(defined, instructions);
    } else {
      assert forall j :: 0 < j < |instructions| ==> instructions[j] == rest[j - 1];
    }
  }

  lemma HeadInOrder(defined: set<ValueId>, instructions: seq<Instruction>)
    requires instructions != [] && SingleDefinitions(defined, instructions)
    requires forall v :: InScopeAt(defined, instructions, 0, v) <==> v in defined
    ensures forall v :: Uses(instructions[0], v) ==> v in defined
    ensures Dest(instructions[0]).Some? ==> Dest(instructions[0]).value !in defined
  {
    hide InScopeAt, Uses;
    if Dest(instructions[0]).Some? {
      assert Defines(instructions[0], Dest(instructions[0]).value);
    }
  }

  /** The walk accepts exactly the blocks whose operands are in scope and whose registers are defined once. */
  lemma {:induction false} SealAcceptsIff(defined: set<ValueId>, instructions: seq<Instruction>)
    ensures SealAccepts(defined, instructions) <==> SingleDefinitions(defined, instructions)
    decreases |instructions|
  {
    hide SingleDefinitions, Uses;
    if instructions == [] {
      NothingToCheck(defined);
    } else {
      SealAcceptsIff(Widened(defined, instructions[0]), instructions[1..]);
      OrderedFromHead(defined, instructions);
    }
  }

  lemma NothingToCheck(defined: set<ValueId>)
    ensures SingleDefinitions(defined, [])
  {
  }

  // ----- the seal walk over a whole body -----

  /** A block with the blocks it immediately dominates. */
  datatype Dominated = Dominated(block: Block, children: seq<Dominated>)

  /** Parameters come into scope one by one, none shadowing a register already there. */
  predicate NewInScope(defined: set<ValueId>, params: seq<ValueId>)
    decreases |params|
  {
    params == [] || (params[0] !in defined && NewInScope(defined + {params[0]}, params[1..]))
  }

  function WithAll(defined: set<ValueId>, params: seq<ValueId>): set<ValueId> {
    defined + set v | v in params
  }

  /** The registers in scope at the end of a run of instructions. */
  function ScopeAfter(defined: set<ValueId>, instructions: seq<Instruction>): set<ValueId>
    decreases |instructions|
  {
    if instructions == [] then defined
    else
      var dest := Dest(instructions[0]);
      ScopeAfter(if dest.Some? then defined + {dest.value} else defined, instructions[1..])
  }

  /** The walk over the dominator tree: siblings see their parent's scope and not each other's. */
  ghost predicate WalkAccepts(defined: set<ValueId>, tree: Dominated)
    decreases tree, 1
  {
    var b := tree.block;
    var inside := WithAll(defined, b.params);
    var after := ScopeAfter(inside, b.instructions);
    && NewInScope(defined, b.params)
    && SealAccepts(inside, b.instructions)
    && (forall v :: TerminatorUses(b.terminator, v) ==> v in after)
    && WalkAcceptsAll(after, tree.children)
  }

  ghost predicate WalkAcceptsAll(defined: set<ValueId>, trees: seq<Dominated>)
    decreases trees, 0
  {
    trees == [] || (WalkAccepts(defined, trees[0]) && WalkAcceptsAll(defined, trees[1..]))
  }

  /** A block no other leads to may only be the sink behind an expression that never returns. */
  ghost predicate SinkAccepted(defined: set<ValueId>, b: Block) {
    && b.terminator.Unreachable? && NewInScope(defined, b.params)
    && SealAccepts(WithAll(defined, b.params), b.instructions)
  }

  predicate InTree(b: Block, tree: Dominated)
    decreases tree, 1
  {
    b == tree.block || InTrees(b, tree.children)
  }

  predicate InTrees(b: Block, trees: seq<Dominated>)
    decreases trees, 0
  {
    trees != [] && (InTree(b, trees[0]) || InTrees(b, trees[1..]))
  }

  lemma {:induction false} WalkSeals(defined: set<ValueId>, tree: Dominated, b: Block)
    requires WalkAccepts(defined, tree) && InTree(b, tree)
    ensures DefinedBeforeUse(b)
    decreases tree, 1
  {
    var inside := WithAll(defined, tree.block.params);
    if b == tree.block {
      SealDefinesBeforeUse(inside, b);
    } else {
      WalkSealsAll(ScopeAfter(inside, tree.block.instructions), tree.children, b);
    }
  }

  lemma {:induction false} WalkSealsAll(defined: set<ValueId>, trees: seq<Dominated>, b: Block)
    requires WalkAcceptsAll(defined, trees) && InTrees(b, trees)
    ensures DefinedBeforeUse(b)
    decreases trees, 0
  {
    if InTree(b, trees[0]) {
      WalkSeals(defined, trees[0], b);
    } else {
      WalkSealsAll(defined, trees[1..], b);
    }
  }

  /** A body whose blocks the seal pass accepts, in the dominator tree or as sinks, is sealed. */
  lemma SealPassSeals(f: Function, tree: Dominated)
    requires WalkAccepts(WithAll({}, f.params), tree)
    requires forall b :: b in f.blocks ==> InTree(b, tree) || SinkAccepted(WithAll({}, f.params), b)
    ensures Sealed(f)
  {
    forall b | b in f.blocks ensures DefinedBeforeUse(b) {
      if InTree(b, tree) {
        WalkSeals(WithAll({}, f.params), tree, b);
      } else {
        SealDefinesBeforeUse(WithAll(WithAll({}, f.params), b.params), b);
      }
    }
  }
}
