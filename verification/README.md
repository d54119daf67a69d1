# Koja in Dafny

A Dafny model of the parts of the Koja toolchain whose correctness is hardest
to see from the code, with proofs for every input, every program and every
run:

- **Copy avoidance in the interpreter.** Values share reference-counted
  buffers. A consuming concatenation moves its left register out of the frame
  and extends the buffer in place when nothing else refers to it, and dead
  registers are dropped early to make that so. `Typing.TypedSharingIsCopying`
  says that none of this can be noticed: at every moment of every call of a
  sealed and typed function whose consumed operands are dead, the interpreter
  is where a machine that copies every value is, with the same result or error.
  `Interpreter.Frame` is the frame as an object updated in place; its methods
  take exactly the steps the theorems are about.
- **The dependency graph.** Ordering with the nodes left stuck, the edges to
  cut, a cycle through a node, and reachability: each search is proved to
  return exactly what its documentation promises, and which of several possible
  answers it returns is stated on the graph alone, in the order of paths that
  `WalkOrder.dfy` defines.
- **The document renderer.** The explicit-stack renderer, the fit check and
  `flatten` agree on one flat layout, every line starts at the indentation of
  what broke it, the width moves white space only, and trailing comments that a
  newline follows decide nothing.
- **Bit strings and checked integers.** Appending, slicing, packing and
  matching bit fields at every alignment and width; arithmetic that is exact
  or faults at every integer type.
- **Two text transformations.** The documentation highlighter, whose markup
  can be erased to give the source back whenever its scanner does not abort, and
  the application of a repair's edits from the end backward.

`dafny verify dfyconfig.toml` checks everything.

## How the interpreter proof is built

| file | role |
|---|---|
| `Program.dfy` | the IR, and what sealing guarantees of a block |
| `PureMachine.dfy` | a body as a machine over plain values, nothing shared |
| `Meaning.dfy` | what that machine does, said of frames and points of control alone |
| `Simulation.dfy` | runs that lose registers compared with runs that keep them; the tail-call loop |
| `RcHeap.dfy` | counted buffers, the operations on them, and the counting invariant |
| `RcMachine.dfy`, `RcRelease.dfy`, `RcControl.dfy` | instructions, early release and terminators over counted buffers |
| `RcRuns.dfy` | every run over counted buffers against runs over plain values |
| `Liveness.dfy` | moving registers out is copying when consumed operands are dead |
| `Typing.dfy` | typed functions meet no mistyped concatenation |
| `Interpreter.dfy` | the frame as a class, each method proved against its memory function |

Where the code and its own comments disagree the model follows the code:

- `crates/koja-ir/src/types.rs:98-99` lists `MIN % -1` among the overflow
  faults; the interpreter computes it exactly and returns zero
  (`IntOps.RemainderByMinusOne`).
- Unary minus reads the stored word of a `UInt64` as signed, so values of 2^63
  and more negate to a positive number instead of faulting
  (`IntOps.NegIsRightIff`, `IntOps.NegOfGreatestUInt64`).
- Extending in place never looks at the kind a concatenation names, so two
  strings joined under the `Binary` kind succeed or fail depending on sharing
  (`RcRuns.MistypedConcatSlips`). A typed function never gets there
  (`Typing.RunTyped`).
- The fit check skips line suffixes, which the source says never decide whether
  a group breaks (`crates/koja-fmt/src/doc.rs:8-10`). They do when a group or a
  later fill item stands behind one (`RenderSuffix.SuffixBreaksFittingGroup`).
  `RenderSuffix.FittingGroupStaysIff` says exactly when a group that passes the
  fit check is laid out flat, and `RenderSuffix.SuffixesLastStay` that it is
  whenever suffixes come last. `RenderErase.SuffixesErase` covers the use made of
  them: with a newline before the next choice they decide nothing.
- Making edits from the end backward is said to keep earlier offsets valid
  (`crates/koja-ast/src/ast.rs:439-440`). At one start it need not: an insertion
  listed before an edit that takes text away there is overwritten, and that much
  of the text survives (`FixTies.InsertionOverwritten`, `FixTies.InsertionLost`).
  `FixTies.AlwaysSplicesIff` says exactly when the edits are spliced.
- `eat_ident` is documented to take `?` and `!` suffixes; the code takes `?` only
  (`HighlightTokens.BangIsNoSuffix`).
- A name directly behind a decimal number is styled as a name of its own, so
  `1end` shows a keyword (`HighlightTokens.KeywordBehindNumber`,
  `HighlightTokens.NameStartsWhole`).
- The highlighter takes any code block, but it slices the block at byte offsets
  and panics off a character boundary. `HighlightScan.HighlightKoja` says exactly
  when: a character of several bytes stands where a token starts or inside a
  string in triple quotes. Comments and other strings may hold any character.

## Model

| member | source | states |
|---|---|---|
| `Graphs.Graph.AddNode` | crates/koja-graph/src/graph.rs:38-40 | adds the node with no edges, leaves every edge list as it was, and keeps the graph well formed |
| `Graphs.Graph.AddEdge` | crates/koja-graph/src/graph.rs:28-34 | adds both nodes and the edge, a repeated edge changing nothing; targets are always nodes and no list repeats one |
| `Graphs.BuildHolds` | crates/koja-graph/src/graph.rs:26-40 | a graph built edge by edge is well formed and holds exactly the nodes mentioned and the edges given |
| `Graphs.InsertionOrderForgotten` | crates/koja-graph/src/graph.rs:26-40 | any two orders of inserting the same edges build the same relation |
| `Toposort.DependentsOf` | crates/koja-graph/src/toposort.rs:23-35 | for every node, the nodes that depend on it, each once and in key order |
| `Toposort.Release` | crates/koja-graph/src/toposort.rs:42-51 | counting down never underflows, keeps every count equal to the dependencies still missing, and queues exactly the nodes just freed, in key order |
| `Toposort.Drain` | crates/koja-graph/src/toposort.rs:37-52 | running the queue down orders what the edge relation alone says is ready |
| `Toposort.Toposort` | crates/koja-graph/src/toposort.rs:22-59 | ready and stuck list every node once; ready nodes follow their dependencies; a node is stuck exactly when it reaches a cycle; the whole order is a function of the edge relation |
| `Toposort.ReadyIsExact` | crates/koja-graph/src/toposort.rs:17-22 | a node is ordered exactly when no cycle can be reached from it |
| `Toposort.ReadyByLongestChain` | crates/koja-graph/src/toposort.rs:37-51 | ready nodes come out by nondecreasing length of their longest dependency chain |
| `Toposort.OrderForgetsInsertion` | crates/koja-graph/src/toposort.rs:22-59 | inserting the same edges in another order gives the same order, ready and stuck alike |
| `ToposortTurns.ReadyInTurn` | crates/koja-graph/src/toposort.rs:37-51 | ready nodes come first in, first out: by the place of the last of their dependencies, and by key among those the same node frees |
| `BackEdges.Search.Walk` | crates/koja-graph/src/back_edges.rs:38-49 | the walk finishes the node, restores the stack, keeps every edge found so far, and finds only edges back into the stack |
| `BackEdges.BackEdgesOf` | crates/koja-graph/src/back_edges.rs:8-27 | each edge reported lies on a cycle and is reported once; cutting them leaves no cycle; putting any one of them back closes a cycle among the edges kept; an edge is reported exactly when it leads into the first simple path to its source, roots compared by key and next nodes by insertion order; and the edges come in the order the walk meets them |
| `WalkOrder.StackIsFirst` | crates/koja-graph/src/back_edges.rs:38-49 | a walk that has dealt with everything it turns to before comes to a node along the first of all simple paths to it |
| `WalkTrace.WalkEnds` | crates/koja-graph/src/back_edges.rs:15-27 | the finished walk has reported exactly the edges that lead into those paths, in order |
| `BackEdges.ReportIsDetermined` | crates/koja-graph/src/back_edges.rs:11-13 | that determines the list of edges: there is one for each graph |
| `BackEdges.LeastKeyIsTarget` | crates/koja-graph/src/back_edges.rs:11-13 | an edge back to a node that no smaller key reaches is reported if and only if that node reaches its source |
| `BackEdges.CutIsMinimal` | crates/koja-graph/src/back_edges.rs:8-13 | no edge is reported needlessly: leaving any one of them out of the cut leaves a cycle |
| `BackEdges.BackEdgesIffStuck` | crates/koja-graph/src/back_edges.rs:8-13 | nothing is reported exactly when `toposort` leaves nothing stuck |
| `CyclePath.Search.Walk` | crates/koja-graph/src/cycle_path.rs:38-54 | the walk either completes a simple cycle or leaves the path as it was with the node a dead end |
| `CyclePath.CyclePathOf` | crates/koja-graph/src/cycle_path.rs:8-26 | a path is returned exactly when a cycle through the start stays inside the set, and lists the other nodes of such a simple cycle: of all of them the first in insertion order |
| `CyclePath.StuckSetSuffices` | crates/koja-graph/src/cycle_path.rs:11-16 | inside `toposort`'s stuck nodes there is a cycle through a node exactly when the whole graph has one |
| `Reachable.Expand` | crates/koja-graph/src/reachable.rs:15-22 | one turn of the queue adds the dependencies not met before, in insertion order, and keeps the queue within two distances |
| `Reachable.ReachableFrom` | crates/koja-graph/src/reachable.rs:8-24 | exactly the nodes reachable from the start, the start first, each once, by nondecreasing shortest distance, ties in the order first mentioned |
| `Program.SealAcceptsIff` | crates/koja-ir/src/seal/function.rs:404-414 | the seal walk accepts a run of instructions if and only if every operand is in scope where it is read and every register is new where it is defined |
| `Program.SealDefinesBeforeUse` | crates/koja-ir/src/seal/function.rs:404-414 | a block whose instructions the seal walk accepts reads no register that is defined at or after the reading instruction |
| `Program.SealPassSeals` | crates/koja-ir/src/seal/function.rs:313-428 | a body whose blocks the walk over the dominator tree accepts, parameters and terminator operands included, or accepts as unreachable sinks, defines every register before its block uses it |
| `PureMachine.BindAllSets` | crates/koja-ir-eval/src/interpreter.rs:977-985 | each parameter gets its own argument, the last one where a name repeats |
| `PureMachine.JumpIsParallel` | crates/koja-ir-eval/src/interpreter.rs:955-987 | a branch edge is a parallel assignment: arguments naming rebound parameters read their old values, and every other register keeps its value |
| `Meaning.EntryBinds` | crates/koja-ir-eval/src/interpreter.rs:636-640 | a call starts at the first block with each parameter that gets an argument bound to it, no other register bound and no local |
| `Meaning.JumpFollows` | crates/koja-ir-eval/src/interpreter.rs:955-987 | an edge leads to the start of the block it names with its parameters bound in parallel, or fails where block, arity or an argument is missing, the first missing one named |
| `Meaning.TerminateMeans` | crates/koja-ir-eval/src/interpreter.rs:919-951 | a true condition takes the first target and a false one the second; a return gives the value or unit; a tail call starts the function again with the values named |
| `Meaning.ExecuteMeans` | crates/koja-ir-eval/src/interpreter.rs:1302-1424 | each instruction gives its destination or local the value it should and leaves every other one alone, or reports the error it should |
| `Meaning.OperandsAreNeeded` | crates/koja-ir-eval/src/interpreter.rs:834-855 | what counts as an operand is one: without it the instruction, or leaving the frame, fails |
| `Simulation.TrampolinePreservesMeaning` | crates/koja-ir-eval/src/interpreter.rs:636-649 | for every body and number of steps, looping on tail restarts returns what calling again and returning would, coercion included |
| `Simulation.MovingRunTrails` | crates/koja-ir-eval/src/interpreter.rs:1395-1412 | moving registers out of the frame never changes a value or a point of control; it can only miss a register |
| `Simulation.StepSame` | crates/koja-ir-eval/src/interpreter.rs:795-828 | in a sealed function, losing registers that are dead in their block changes no step |
| `RcHeap.UniqueIsUnseen` | crates/koja-ir-eval/src/binary_ops.rs:323-325 | a count of one for a buffer in flight means no register, slot or caller's binding refers to it |
| `RcHeap.GrownInvisible` | crates/koja-ir-eval/src/value.rs:23-28 | growing such a buffer in place keeps every count exact and changes the meaning of no binding anywhere |
| `RcHeap.SharedGood` | crates/koja-ir-eval/src/interpreter.rs:1692-1703 | cloning a value keeps counts exact and puts one more reference in flight |
| `RcHeap.DroppedGood` | crates/koja-ir-eval/src/value.rs:23-28 | dropping a value keeps counts exact, frees a buffer with its last reference and no sooner, and disturbs no binding |
| `RcHeap.PutInGood` | crates/koja-ir-eval/src/interpreter.rs:1286-1289 | binding a value changes that register alone and drops what it held |
| `RcMachine.ExtendConsumes` | crates/koja-ir-eval/src/binary_ops.rs:317-328 | extending a unique buffer yields the joined payload and leaves the right operand readable |
| `RcMachine.CopyConsumes` | crates/koja-ir-eval/src/interpreter.rs:1402-1405 | the fallback copies, yields the concatenation and lets the left operand go |
| `RcMachine.AppendRefines` | crates/koja-ir-eval/src/interpreter.rs:1388-1412 | a concatenation over shared buffers, equal operands included, does what it does over values, except exactly when its operands are of a kind it does not name and the left buffer is unique |
| `RcMachine.ExecuteRefines` | crates/koja-ir-eval/src/interpreter.rs:1302-1570 | every modelled instruction over shared buffers does what it does over values, to the running frame and to nothing else, errors included |
| `RcMachine.AllocatesIffShared` | crates/koja-ir-eval/src/interpreter.rs:1391-1405 | a consuming concatenation of two strings or two binaries allocates exactly when its left buffer is shared |
| `RcMachine.ExtendsIffSole` | crates/koja-ir-eval/src/binary_ops.rs:317-328 | such a concatenation copies nothing if and only if no other register, slot, caller or reference in flight holds the left buffer and the operands are two registers |
| `RcRelease.ReleasedExactly` | crates/koja-ir-eval/src/interpreter.rs:795-859 | the registers released are exactly those about to be redefined in the block and, where the block exits, those sharing the receiver's storage that nothing left reads |
| `RcRelease.ReleasedAreDead` | crates/koja-ir-eval/src/interpreter.rs:795-859 | every register released is redefined before the block reads it, or is not read before the frame ends |
| `RcRelease.ReleasedBecomes` | crates/koja-ir-eval/src/interpreter.rs:805-859 | releasing changes nothing but the registers it drops |
| `RcControl.JumpRefines` | crates/koja-ir-eval/src/interpreter.rs:962-987 | a branch edge over shared buffers is the edge over values, its errors included |
| `RcControl.EnterRefines` | crates/koja-ir-eval/src/interpreter.rs:636-640 | a fresh frame binds the arguments to the parameters, drops surplus arguments and nothing else |
| `RcControl.ReturnRefines` | crates/koja-ir-eval/src/interpreter.rs:641-644 | a return hands out the value, coerced, and the frame lets go of everything else |
| `RcControl.TerminateRefines` | crates/koja-ir-eval/src/interpreter.rs:919-951 | leaving a block over shared buffers is leaving it over values |
| `RcRuns.AdvanceKeeps` | crates/koja-ir-eval/src/interpreter.rs:888-953 | every step of every program keeps the counts exact and the callers' bindings as they were |
| `RcRuns.AdvanceRefines` | crates/koja-ir-eval/src/interpreter.rs:888-953 | every step over shared buffers is the step over values unless that one reports mistyped operands |
| `RcRuns.RunKeeps` | crates/koja-ir-eval/src/interpreter.rs:888-953 | over every run counts stay exact, callers see no change, and a finished call holds nothing but its result |
| `RcRuns.MutationIsInvisible` | crates/koja-ir-eval/src/value.rs:23-28 | for every block graph, argument list and number of steps, with or without early release: the same point and result as copying, or an undefined register, up to the first mistyped concatenation |
| `RcRuns.EarlyReleaseIsSafe` | crates/koja-ir-eval/src/interpreter.rs:795-859 | in a sealed function, runs with and without early release are always at the same point with the same result or error |
| `RcRuns.ReleaseNeedsSealing` | crates/koja-ir-eval/src/interpreter.rs:815-820 | sealing is needed: a consuming site that succeeds without early release succeeds with it if and only if neither operand is defined at or after it in the block, and otherwise reports that operand undefined, the right one first |
| `RcRuns.MistypedConcatSlips` | crates/koja-ir-eval/src/binary_ops.rs:317-328 | well-typed operands are needed: two strings joined under the `Binary` kind succeed in place although concatenation rejects them |
| `Liveness.MovingIsCopying` | crates/koja-ir-eval/src/interpreter.rs:1395-1401 | for any consistent liveness assignment under which consumed operands are dead, moving them out changes no run |
| `Liveness.SharingIsCopying` | crates/koja-ir-eval/src/interpreter.rs:795-953 | in a sealed function whose consumed operands are dead, a call over shared buffers is at every moment where the copying call is, with the same result or error, and misses no register that copying does not miss, up to the first mistyped concatenation |
| `Typing.ExecuteTyped` | crates/koja-ir-eval/src/interpreter.rs:1302-1570 | an instruction takes a frame of the types known before it to one of the types known after it, and a concatenation naming its operands' type never mismatches |
| `Typing.RunTyped` | crates/koja-ir-eval/src/binary_ops.rs:65-123 | for any typing consistent with the block graph, no run of the function meets a mistyped concatenation |
| `Typing.TypedSharingIsCopying` | crates/koja-ir-eval/src/value.rs:23-28 | in a sealed and typed function whose consumed operands are dead, a call over shared buffers, with or without early release, is at every moment exactly where the copying call is, with the same result or error |
| `Interpreter.Frame.Lookup` | crates/koja-ir-eval/src/interpreter.rs:1692-1703 | reads a register by sharing its storage, or reports it undefined and changes nothing |
| `Interpreter.Frame.ExtendUniqueBytes` | crates/koja-ir-eval/src/binary_ops.rs:313-328 | appends in place exactly when both are strings or both binaries and the left buffer is unique, otherwise changes nothing |
| `Interpreter.Frame.ConcatValues` | crates/koja-ir-eval/src/binary_ops.rs:65-123 | allocates the concatenation of two values of the named kind, or reports a mismatch and changes nothing |
| `Interpreter.Frame.ConsumeLeft` | crates/koja-ir-eval/src/interpreter.rs:1402-1405 | turns the moved-out left operand into the concatenation, in place or by copying |
| `Interpreter.Frame.ExecuteConsumingConcat` | crates/koja-ir-eval/src/interpreter.rs:1395-1406 | takes the step of the memory function, or fails where it fails with nothing leaked |
| `Interpreter.Frame.ExecuteCopyingConcat` | crates/koja-ir-eval/src/interpreter.rs:1395-1410 | the same for a concatenation that keeps its left operand |
| `Interpreter.Frame.ExecuteBinaryOp` | crates/koja-ir-eval/src/interpreter.rs:1321-1331 | the same for an arithmetic or comparison instruction |
| `Interpreter.Frame.ExecuteInstruction` | crates/koja-ir-eval/src/interpreter.rs:1276-1300 | every modelled instruction takes the step of its memory function, or fails where it fails, with counts exact and callers untouched |
| `Interpreter.Frame.DeadAtExit` | crates/koja-ir-eval/src/interpreter.rs:834-855 | exactly the registers sharing the receiver's storage that nothing left reads, in key order |
| `Interpreter.Frame.ReleaseDeadRegisters` | crates/koja-ir-eval/src/interpreter.rs:805-859 | drops exactly the registers the release rule names |
| `Interpreter.Frame.LookupEach` | crates/koja-ir-eval/src/interpreter.rs:1705-1712 | reads registers in order; a missing one is reported and the reads already made are let go |
| `Interpreter.Frame.BindBlockParams` | crates/koja-ir-eval/src/interpreter.rs:955-987 | follows a branch edge as the memory function does, or fails with nothing leaked |
| `Interpreter.Frame.EnterFrame` | crates/koja-ir-eval/src/interpreter.rs:637-640 | the frame after entry is the one the memory function gives |
| `Interpreter.Frame.ExecuteInstructions` | crates/koja-ir-eval/src/interpreter.rs:900-918 | runs a block's instructions, releasing before each, as the same number of machine steps |
| `Interpreter.Frame.ExecuteBlocks` | crates/koja-ir-eval/src/interpreter.rs:885-953 | drives a body until it leaves the frame, as the same number of machine steps |
| `Interpreter.Frame.ExecuteFunction` | crates/koja-ir-eval/src/interpreter.rs:636-649 | the tail-call loop: its outcome is that of the machine run and of the copying call, the callers' bindings keep their meaning, and nothing stays in flight but the result |
| `Values.ConcatAssociative` | crates/koja-ir-eval/src/binary_ops.rs:65-123 | concatenation is associative under structural equality, at every kind and alignment |
| `Values.ConcatSpells` | crates/koja-ir-eval/src/binary_ops.rs:65-123 | concatenation fails exactly when an operand is not of the kind named, and otherwise spells the left payload and then the right one |
| `Values.JoinBitsCanonical` | crates/koja-ir-eval/src/value.rs:37-43 | joined bits spell the two bit strings one after the other and keep zero padding |
| `BitStrings.PaddedUnique` | crates/koja-ir-eval/src/value.rs:37-43 | two padded buffers are equal exactly when their bit strings are |
| `BinaryAppend.AppendBits` | crates/koja-ir-eval/src/binary_ops.rs:23-57 | writes the source bits after the first `start` bits and no wrong bit anywhere, the spill into the next byte included, at every alignment |
| `BinaryAppend.ConcatBits` | crates/koja-ir-eval/src/binary_ops.rs:93-121 | the buffer spells both bit strings in order, zero padded |
| `BinaryAppend.ExtractBitRange` | crates/koja-ir-eval/src/binary_ops.rs:333-355 | the bits of the range, zero padded, on the aligned and the bit-by-bit path alike |
| `BinaryAppend.BitRangeUnique` | crates/koja-ir-eval/src/binary_ops.rs:330-355 | a bit range has one buffer, so both copying paths agree byte for byte |
| `BinaryAppend.SlicesOfConcat` | crates/koja-ir-eval/src/binary_ops.rs:333-355 | slicing a concatenation gives each operand back byte for byte |
| `BinaryFields.ExtractIntegerSegment` | crates/koja-ir-eval/src/binary_ops.rs:362-387 | the value of the field, for both byte orders, aligned or not |
| `BinaryFields.LiteralSegmentMatches` | crates/koja-ir-eval/src/binary_ops.rs:389-437 | true exactly when the field equals the literal modulo 2^width, at every width, byte order and alignment |
| `BinaryFields.SignInterpretIsExact` | crates/koja-ir-eval/src/binary_ops.rs:439-458 | a signed field of 1 to 64 bits reads as its two's complement value, an empty one as zero, an unsigned one below 64 bits as itself, and a wider one as the word that holds it |
| `BinaryMatch.Frame.MatchSegment` | crates/koja-ir-eval/src/binary_ops.rs:248-308 | one segment holds exactly when its bytes or field equal the literal, and binds its slot to the field or tail and no other slot |
| `BinaryMatch.Frame.ExecuteBinaryMatch` | crates/koja-ir-eval/src/binary_ops.rs:223-311 | matches exactly when the length gate and every literal hold, with every slot bound in order; on failure the slots before the first failing segment are bound, and no index leaves the subject |
| `BinaryPacking.PackIntegerSegment` | crates/koja-ir/src/binary_packing.rs:15-42 | the field reads as the value modulo 2^width afterwards and every bit outside it is unchanged |
| `BinaryPacking.PackedReadsBack` | crates/koja-ir/src/binary_packing.rs:15-42 | a packed field reads back as the value exactly when the value fits the width |
| `IntOps.ArithIsExact` | crates/koja-ir-eval/src/ops.rs:70-98 | on stored operands standing for a and b the result stands for a + b, a - b, a * b, or the quotient or remainder of the division that rounds toward zero, when that is in range; otherwise it is the overflow fault, or the division fault when b is zero |
| `IntOps.RangesAre` | crates/koja-ir-eval/src/ops.rs:50-59 | the least and greatest value of every integer type |
| `IntOps.DivisionIsUnique` | crates/koja-ir-eval/src/ops.rs:84-85 | that quotient and remainder are the only ones |
| `IntOps.EqualityIsExact` | crates/koja-ir-eval/src/ops.rs:100-122 | on two values of one primitive kind `==` and `!=` answer whether they are the same value; any other pair is a mismatch |
| `IntOps.OnlyIntegers` | crates/koja-ir-eval/src/ops.rs:70-76 | arithmetic and order on anything but two integers is a mismatch |
| `IntOps.StoredOnce` | crates/koja-ir-eval/src/ops.rs:61-68 | two stored words are equal exactly when the numbers they stand for are |
| `IntOps.FaultsSay` | crates/koja-ir/src/types.rs:89-102 | the message of each fault |
| `IntOps.WrapIsHarmless` | crates/koja-ir-eval/src/ops.rs:82-95 | wrapping at 128 bits turns no out-of-range result into one in range; a product past 2^127 wraps negative and is rejected |
| `IntOps.TruncatesTowardZero` | crates/koja-ir-eval/src/ops.rs:84-85 | quotient and remainder recompose the dividend, the remainder smaller than the divisor and signed as the dividend |
| `IntOps.CompareIsExact` | crates/koja-ir-eval/src/ops.rs:124-140 | comparison follows the mathematical order, also for unsigned words stored negative |
| `IntOps.StoreRoundTrip` | crates/koja-ir-eval/src/ops.rs:61-68 | storing a value in range and reading it back gives the value |
| `IntOps.RemainderByMinusOne` | crates/koja-ir-eval/src/ops.rs:83-97 | the remainder by minus one is zero for every value, the least included |
| `IntOps.NegIsRightIff` | crates/koja-ir-eval/src/ops.rs:234-243 | unary minus is exact or faults rightly if and only if the operand is not a `UInt64` of 2^63 or more |
| `IntOps.NegOfGreatestUInt64` | crates/koja-ir-eval/src/ops.rs:234-243 | the greatest `UInt64` negates to one |
| `Docs.Intersperse` | crates/koja-fmt/src/doc.rs:101-110 | the documents with the separator between each two |
| `Docs.FlattenIdempotent` | crates/koja-fmt/src/doc.rs:80-99 | flattening twice is flattening once |
| `Docs.Fits` | crates/koja-fmt/src/doc.rs:217-272 | the stack loop answers whether the extent of the document is within the columns left |
| `Docs.FitsIsExact` | crates/koja-fmt/src/doc.rs:217-272 | without hard breaks that is whether the flat text, line suffixes aside, fits |
| `Render.Output.RenderFill` | crates/koja-fmt/src/doc.rs:148-167 | a fill prints its layout and leaves the column after it |
| `Render.Output.RenderDocInto` | crates/koja-fmt/src/doc.rs:169-215 | the explicit-stack loop prints the document's layout and leaves the column after it |
| `Render.RenderDoc` | crates/koja-fmt/src/doc.rs:132-138 | the rendered text is the layout of the document from column zero |
| `RenderFacts.FlatStaysFlat` | crates/koja-fmt/src/doc.rs:169-215 | text that fits the line is laid out on it in flat mode, nested groups and fills included |
| `RenderFacts.GroupThatFits` | crates/koja-fmt/src/doc.rs:200-206 | without hard breaks and line suffixes a group passes the fit check exactly when its flat text ends within the width or is empty, and is then that one line |
| `RenderFacts.ItemThatFits` | crates/koja-fmt/src/doc.rs:148-167 | likewise a fill item stays on the line, behind one space, exactly when it ends within the width there or is empty |
| `RenderMarks.LayoutRealizes` | crates/koja-fmt/src/doc.rs:169-215 | every layout is the marks of the document with one choice for each group and fill item: each newline has the starting indentation plus every `Indent` around the place that breaks, and lines of one group break together |
| `RenderMarks.ColumnIsLastLine` | crates/koja-fmt/src/doc.rs:140-146 | the column kept is the length of the last line written |
| `RenderMarks.ExtentIsFirstLine` | crates/koja-fmt/src/doc.rs:217-272 | with hard breaks the fit check measures the flat layout up to the first of them, suffixes aside |
| `RenderSuffix.FittingGroupStaysIff` | crates/koja-fmt/src/doc.rs:8-11 | a group that passes the fit check is laid out flat, hard breaks and all, if and only if every nested group with a choice and every later fill item passes it at the column the flat layout puts it at, suffixes counted; for documents whose nested groups show their choice |
| `RenderSuffix.FittingGroupIsLineIff` | crates/koja-fmt/src/doc.rs:8-11 | without hard breaks the same condition decides whether such a group stays on its line, where it says its flat text |
| `RenderSuffix.SettledStays` | crates/koja-fmt/src/doc.rs:155-215 | a document settled in that sense is laid out flat, whatever its groups hold |
| `RenderSuffix.UnsettledBreaks` | crates/koja-fmt/src/doc.rs:155-215 | one that is not settled ends more lines than its flat layout |
| `RenderSuffix.SuffixesLastStay` | crates/koja-fmt/src/doc.rs:8-11 | with no group and no later fill item behind a line suffix, a group that passes the fit check is one line, however long the suffixes |
| `RenderSuffix.SuffixBreaksFittingGroup` | crates/koja-fmt/src/doc.rs:223-224 | with a group behind it, a line suffix can break a group that passes the fit check |
| `RenderErase.SuffixesErase` | crates/koja-fmt/src/doc.rs:8-11 | if no group and no later fill item is met between a suffix and the next newline, the layout with its suffixes left out is the layout of the document without them, at every width, column, mode and indentation |
| `RenderErase.SuffixesDecideNothing` | crates/koja-fmt/src/printer/comments.rs:44-58 | two documents that differ in such suffixes alone wrap their code the same way |
| `RenderFacts.FlattenPrints` | crates/koja-fmt/src/doc.rs:80-99 | a flattened document prints its flat text at every width, column, mode and indentation, its hard breaks returning to that indentation |
| `RenderFacts.FlatTextAtMargin` | crates/koja-fmt/src/doc.rs:80-99 | at indentation zero, or without hard breaks, that text is the flat text the fit check measures |
| `RenderFacts.FlattenIgnoresWidth` | crates/koja-fmt/src/doc.rs:80-99 | rendering a flattened document does not depend on the width |
| `RenderFacts.FragmentsKept` | crates/koja-fmt/src/doc.rs:169-215 | without `IfBreak` every text and line suffix is printed exactly once and in document order, at every width |
| `RenderFacts.WidthMovesNoInk` | crates/koja-fmt/src/doc.rs:132-215 | two widths print the same characters apart from white space |
| `Highlight.LosesNothing` | crates/koja-doc/src/highlight.rs:15-37 | spans are balanced and never nest, and erasing the tags and decoding the entities gives the source back |
| `HighlightTokens.StylesMean` | crates/koja-doc/src/highlight.rs:174-265 | at every token of a source, what its style says of it: a comment runs to the line end, a string to its first unescaped quote, line end or closing triple, a number as far as it can, keywords, types and calls are whole names save behind a number, and calls precede a parenthesis |
| `HighlightTokens.NameStyle` | crates/koja-doc/src/highlight.rs:245-281 | a name is a keyword if it is listed and no question mark follows, else a type if it starts upper case, else a call if the first non-blank character behind it is a parenthesis, else plain |
| `HighlightTokens.OtherStyle` | crates/koja-doc/src/highlight.rs:23-34 | every other token has the style of its first characters, and plain ones are one byte |
| `HighlightTokens.UnstyledIff` | crates/koja-doc/src/highlight.rs:23-34 | a token is plain exactly when nothing gives it a style |
| `HighlightTokens.NameStartsWhole` | crates/koja-doc/src/highlight.rs:222-265 | a name token has a name character before it if and only if the token before it is a number |
| `HighlightTokens.KeywordBehindNumber` | crates/koja-doc/src/highlight.rs:222-265 | `1end` is styled as a number and a keyword |
| `HighlightTokens.BangIsNoSuffix` | crates/koja-doc/src/highlight.rs:245-252 | no name token contains a `!` |
| `Highlight.StringEndsAt` | crates/koja-doc/src/highlight.rs:183-209 | a literal in single quotes ends at its first quote or line end behind an even number of backslashes, one in triple quotes at the first closing triple, either at the end of the text if there is none |
| `HighlightScan.PushEscaped` | crates/koja-doc/src/highlight.rs:162-172 | appends the text with the four entities escaped |
| `HighlightScan.Span` | crates/koja-doc/src/highlight.rs:154-160 | appends one balanced span around the escaped text |
| `HighlightScan.EatString` | crates/koja-doc/src/highlight.rs:183-209 | consumes the literal up to its first unescaped quote or line end, or its first closing triple, or the end of the text, and appends it as one span; aborts exactly when it is in triple quotes and holds a character of several bytes |
| `HighlightScan.EatNumber` | crates/koja-doc/src/highlight.rs:222-243 | consumes exactly the number, a range that can always be sliced out, and appends it as one span |
| `HighlightScan.EatIdent` | crates/koja-doc/src/highlight.rs:245-265 | consumes exactly the name, a range that can always be sliced out, and appends it under its style |
| `HighlightScan.HighlightKoja` | crates/koja-doc/src/highlight.rs:17-37 | over the bytes of any UTF-8 source the scanner aborts if and only if a character of several bytes stands where a token starts or inside a string in triple quotes; otherwise reading its output back gives the source |
| `Fix.BackToFrontDescends` | crates/koja-ast/src/ast.rs:443 | the edits are ordered by descending start |
| `Fix.BackToFrontIsStable` | crates/koja-ast/src/ast.rs:443 | edits with one start keep their list order, for every list |
| `Fix.AppliedIsEdited` | crates/koja-ast/src/ast.rs:441-451 | for every list of disjoint edits in bounds, what is left: at each start its edits made in list order over the text behind it, everything between kept |
| `Fix.BackToFrontSplices` | crates/koja-ast/src/ast.rs:439-451 | for disjoint edits in bounds with only insertions listed after the first at each start, applying them from the end backward is splicing them all in at once, the texts of one start in reverse list order |
| `Fix.OnlyTiesMatter` | crates/koja-ast/src/ast.rs:443 | rearranging disjoint edits in bounds changes nothing as long as those with one start keep their order |
| `Fix.OrderDoesNotMatter` | crates/koja-ast/src/ast.rs:439-451 | with distinct starts the order of the list does not matter |
| `FixTies.TwoAtOneStart` | crates/koja-ast/src/ast.rs:444-449 | of two disjoint edits at one start the second listed is made over the text the first has left, in both list orders |
| `FixTies.EqualStartsSwap` | crates/koja-ast/src/ast.rs:444-449 | of two insertions at one offset the second listed comes out first |
| `FixTies.InsertionAfter` | crates/koja-ast/src/ast.rs:444-449 | an insertion listed after an edit that takes text away at its start lands before the new text, with the old text gone |
| `FixTies.InsertionOverwritten` | crates/koja-ast/src/ast.rs:444-449 | listed before it, the insertion is itself overwritten and as much of the old text survives |
| `FixTies.InsertionLost` | crates/koja-ast/src/ast.rs:444-449 | on `ab`, inserting X and replacing `a` by R gives `Rab` in that list order and `XRb` in the other |
| `FixTies.AlwaysSplicesIff` | crates/koja-ast/src/ast.rs:439-451 | disjoint edits in bounds are spliced whatever their texts if and only if at each start only insertions are listed after the first edit |
| `Fix.Apply` | crates/koja-ast/src/ast.rs:441-451 | the loop applies the sorted edits in turn, aborting on a range outside the text; for disjoint edits in bounds it leaves what stacking them at their starts leaves, and the splice where only insertions follow at each start |

## Left out

- Graph keys are naturals; the code is generic over ordered keys, and only the order is used.
- Calls, closures, enums, structs, collections, spawning and receiving in the interpreter: the bindings of calling frames are one map that no step may change the meaning of.
- Consuming intrinsics on lists, maps and sets share the uniqueness gate modelled for strings and binaries and are not modelled themselves.
- Interpreter.Frame.ExecuteFunction: runs for at most a given number of steps, because the code has no step cap and a body need not end; the theorems hold for every number.
- Interpreter.Frame.DeadAtExit: compares storage without the temporary clone of the receiver that the code takes and drops around the comparison.
- Panics on malformed programs (missing block, wrong arity, unread local, no block) are the one error `SealViolation`.
- The lowering and type-checking passes: that consumed operands are dead, and that a function is typed, are hypotheses of `Liveness` and `Typing`, stated as any assignment consistent with the block graph.
- RcRuns.MutationIsInvisible: states nothing past the first mistyped concatenation, because the code itself then depends on sharing, and allows an undefined register; the typed and live results close both.
- RenderSuffix.FittingGroupStaysIff: leaves out documents with a nested group that depends on its mode through `IfBreak` alone, or that has a choice and a hard break in its flat form; laid out broken, such a group can come out like its flat layout.
- RenderSuffix.UnsettledBreaks: the same documents, for the same reason.
- RenderErase.SuffixesErase: one direction; a group behind a suffix may also do no harm, for instance when it has no line to break.
- Strings at run time are their bytes; that concatenation keeps them valid UTF-8 is not modelled.
- Program.SealPassSeals: takes the dominator tree as given; computing immediate dominators is not modelled.
- Floating-point arithmetic and comparison, which follow the host.
- Columns, indents and widths in the renderer are naturals; 32-bit overflow of a column is not modelled. Text is measured in characters, which are bytes in the code.
- Docs.Fits: takes one stack entry, as every caller passes one.
- Bit offsets and lengths are naturals; 64-bit overflow of a bit count is not modelled.
- HighlightScan.PushEscaped: walks the bytes of a text where the code walks its characters; the four escaped characters are single bytes.
- HighlightScan.HighlightKoja: takes sources with the shape of UTF-8, lead bytes with their continuation bytes; overlong forms and surrogates are let in.
- RenderMarks.ExtentIsFirstLine: for documents without a hard break inside a fill, where the check counts all separators of the fill first.
- Fix.Apply: offsets count characters, which are bytes in the code; a range inside a multi-byte character panics there.
- Building binary literals around `PackIntegerSegment`: offsets and kinds come from lowering.
- The scheduler, the reactor, code generation, the driver, documentation extraction and the syntax printers.
