# SyncVM loop indexed load/store recognition, modelled in Dafny

This project models the LLVM loop pass `SyncVMLoopIndexedLdStRecognize` of the
SyncVM backend. The pass prepares loops for a later pass that forms indexed
loads and stores.

For each loop in loop-simplify form it visits every load and store. It asks
ScalarEvolution whether the instruction's address is a getelementptr that
advances by exactly one 32-byte cell per iteration (`IsIncByOneCell`). When it
is, `RewriteToFavorIndexedLdST` replaces that getelementptr with an explicit
induction pointer:

- a two-entry phi at the head of the block, seeded from the preheader;
- an increment by one element, placed just before the memory instruction;
- the increment feeds the phi's second entry.

The model has seven modules:

- `Llvm` (`llvm_ir.dfy`): the IR of one function as an index-stable arena.
  - Instructions live in a map from ids to (parent block, operation).
  - Each block maps to its ordered list of ids.
  - Fresh ids come from a counter.
  - `WellFormed` states the invariants the pass keeps.
  - The class `Llvm.Function` is the mutable function body. Its methods are
    the LLVM edits the pass uses: create at an insertion point, IRBuilder's
    `CreateInBoundsGEP` (which folds a zero-index getelementptr of a
    constant into the constant itself), `addIncoming`,
    `replaceAllUsesWith` and `eraseFromParent`.
  - A value is an instruction, a function argument, a global, or an integer
    constant.
- `Classifier` (`classifier.dfy`): the stride test `IsIncByOneCell`, as a
  decision over ScalarEvolution's answer.
- `Rewriter` (`rewriter.dfy`): the rewrite as pure functions of the function
  body, one per phase of the source.
- `RewriteFacts` (`rewrite_facts.dfy`): what one rewrite guarantees.
- `Walker` (`walker.dfy`): the walk of `runOnLoop` as pure functions, and what
  a whole run guarantees.
- `Semantics` (`semantics.dfy`): the addresses the rewritten phi takes in
  one run of a single-block loop, compared with the addresses ScalarEvolution
  predicts for the getelementptr it replaces.
- `Pass` (`pass.dfy`): the pass object as a class.
  - `RunOnLoop` loops over blocks and instructions.
  - `RewriteToFavorIndexedLdST` edits the function in place.
  - Each method is proved to leave exactly the state the pure model
    describes.

`CellSize` and `PointerSize` are both 32, the SyncVM cell width in bytes.

## Model

| member | source | states |
|---|---|---|
| `Classifier.IsIncByOneCell` | llvm/lib/Target/SyncVM/SyncVMLoopIndexedLdStRecognize.cpp:124-142 | a value that is not a getelementptr is rejected; with no closed form, a getelementptr is accepted; an accepted value with a closed form has a constant step |
| `Classifier.NonGepIsRejected` | llvm/lib/Target/SyncVM/SyncVMLoopIndexedLdStRecognize.cpp:127-128 | a non-getelementptr is rejected whatever ScalarEvolution answers |
| `Classifier.ClosedFormDecides` | llvm/lib/Target/SyncVM/SyncVMLoopIndexedLdStRecognize.cpp:130-139 | with a closed form, a getelementptr is accepted exactly when the step is the constant 32; a symbolic step or any other constant is rejected |
| `Classifier.MissingClosedFormIsAccepted` | llvm/lib/Target/SyncVM/SyncVMLoopIndexedLdStRecognize.cpp:130-141 | a getelementptr for which ScalarEvolution gives nothing is accepted |
| `Classifier.AcceptedMeans` | llvm/lib/Target/SyncVM/SyncVMLoopIndexedLdStRecognize.cpp:124-142 | accepted if and only if it is a getelementptr and its closed form is missing or steps by the constant 32 |
| `Llvm.FirstNonPhi` | llvm/lib/Target/SyncVM/SyncVMLoopIndexedLdStRecognize.cpp:95 | the insertion point lies at or before the end of the block; every instruction before it is a phi and the one at it is not |
| `Llvm.IndexOf` | llvm/lib/Target/SyncVM/SyncVMLoopIndexedLdStRecognize.cpp:114 | the position of `currentI` in its block: it holds `currentI`, and no earlier position does |
| `Llvm.Function.Insert` | llvm/lib/Target/SyncVM/SyncVMLoopIndexedLdStRecognize.cpp:95-96 | the builder creates the instruction under a fresh id at the insertion point, and changes nothing else |
| `Llvm.Function.CreateInBoundsGep` | llvm/lib/Target/SyncVM/SyncVMLoopIndexedLdStRecognize.cpp:102-104 | a zero index on a constant pointer folds to that pointer and inserts nothing; otherwise a new getelementptr instruction is inserted at the insertion point and returned |
| `Llvm.Function.AddIncoming` | llvm/lib/Target/SyncVM/SyncVMLoopIndexedLdStRecognize.cpp:99 | one entry is appended to the phi's list, and nothing else changes |
| `Llvm.Function.ReplaceAllUsesWith` | llvm/lib/Target/SyncVM/SyncVMLoopIndexedLdStRecognize.cpp:109 | every operand naming the old value names the new one |
| `Llvm.Function.EraseFromParent` | llvm/lib/Target/SyncVM/SyncVMLoopIndexedLdStRecognize.cpp:110 | the instruction leaves its block and the function |
| `Rewriter.PlacePhi` | llvm/lib/Target/SyncVM/SyncVMLoopIndexedLdStRecognize.cpp:95-96 | an empty phi with a fresh id sits at the first non-phi position of the block; every other instruction and block is untouched; the body stays well formed |
| `Rewriter.SeedPhi` | llvm/lib/Target/SyncVM/SyncVMLoopIndexedLdStRecognize.cpp:98-106 | the phi gains one preheader entry; it is the pointer operand when that is an instruction or a constant (whose zero-index getelementptr folds away), and for an argument a new zero-index getelementptr placed just before the preheader's terminator |
| `Rewriter.SeedFromInitGep` | llvm/lib/Target/SyncVM/SyncVMLoopIndexedLdStRecognize.cpp:101-105 | the zero-index getelementptr of the pointer operand is built before the preheader's last instruction and its value is the phi's preheader entry: a new instruction for an argument, the constant itself for a constant |
| `Rewriter.Rewire` | llvm/lib/Target/SyncVM/SyncVMLoopIndexedLdStRecognize.cpp:109-110 | the getelementptr is gone from the arena and its block; no instruction uses it any more; every former use reads the phi |
| `Rewriter.Advance` | llvm/lib/Target/SyncVM/SyncVMLoopIndexedLdStRecognize.cpp:114-119 | a getelementptr of the phi by one pointer-sized element sits just before `currentI`, and becomes the phi's last entry, from `currentBB` |
| `Rewriter.Prepare` | llvm/lib/Target/SyncVM/SyncVMLoopIndexedLdStRecognize.cpp:95-106 | the new phi is in `currentBB`; all existing instructions are kept unchanged; the body stays well formed |
| `Rewriter.Finish` | llvm/lib/Target/SyncVM/SyncVMLoopIndexedLdStRecognize.cpp:109-119 | replacing the getelementptr and adding the increment keeps the body well formed |
| `Rewriter.Rewrite` | llvm/lib/Target/SyncVM/SyncVMLoopIndexedLdStRecognize.cpp:84-122 | the whole rewrite keeps the body well formed |
| `Rewriter.PrepareAdds` | llvm/lib/Target/SyncVM/SyncVMLoopIndexedLdStRecognize.cpp:95-106 | after the first phase, the phi's only entry comes from the preheader; the preheader getelementptr exists exactly when the pointer operand is an argument, and is then the phi's entry |
| `Rewriter.PrepareLayout` | llvm/lib/Target/SyncVM/SyncVMLoopIndexedLdStRecognize.cpp:95-106 | the first phase changes only `currentBB` (the phi at the first non-phi position) and the preheader (the getelementptr before its last instruction) |
| `RewriteFacts.RewriteErasesGep` | llvm/lib/Target/SyncVM/SyncVMLoopIndexedLdStRecognize.cpp:109-110 | after the rewrite the original getelementptr is in no block, in no instruction's operands, and not in the function |
| `RewriteFacts.RewriteRedirectsUses` | llvm/lib/Target/SyncVM/SyncVMLoopIndexedLdStRecognize.cpp:109 | every other original instruction survives, in its block, with each use of the getelementptr replaced by the phi |
| `RewriteFacts.RewriteIds` | llvm/lib/Target/SyncVM/SyncVMLoopIndexedLdStRecognize.cpp:96-116 | the rewrite removes exactly the getelementptr and adds exactly the phi, the increment, and the preheader getelementptr when one is needed; no block is created or removed |
| `RewriteFacts.RewritePhi` | llvm/lib/Target/SyncVM/SyncVMLoopIndexedLdStRecognize.cpp:95-119 | the phi lies in `currentBB` and has exactly two entries: the seed from the preheader, then the increment from `currentBB` |
| `RewriteFacts.RewriteIncrement` | llvm/lib/Target/SyncVM/SyncVMLoopIndexedLdStRecognize.cpp:114-116 | the increment is a getelementptr of the phi by index 1 over pointer-sized elements, immediately before `currentI` in `currentBB` |
| `RewriteFacts.RewritePhiFirst` | llvm/lib/Target/SyncVM/SyncVMLoopIndexedLdStRecognize.cpp:95-96 | the block begins with its original leading phis followed by the new phi |
| `RewriteFacts.RewriteInitGep` | llvm/lib/Target/SyncVM/SyncVMLoopIndexedLdStRecognize.cpp:101-105 | for a pointer operand that is an argument, a zero-index getelementptr of it sits second to last in the preheader, just before its terminator |
| `RewriteFacts.RewriteFrame` | llvm/lib/Target/SyncVM/SyncVMLoopIndexedLdStRecognize.cpp:84-122 | ignoring the new instructions, every block keeps its original order, minus the getelementptr |
| `RewriteFacts.RewriteKeepsTerminator` | llvm/lib/Target/SyncVM/SyncVMLoopIndexedLdStRecognize.cpp:101-116 | a block that ended in a terminator still does |
| `RewriteFacts.RewriteSummary` | llvm/lib/Target/SyncVM/SyncVMLoopIndexedLdStRecognize.cpp:84-122 | the rewrite's ids, redirected uses, new phi, new getelementptrs and terminators, gathered in one statement |
| `Walker.IsGepValue` | llvm/lib/Target/SyncVM/SyncVMLoopIndexedLdStRecognize.cpp:127 | the `isa<GetElementPtrInst>` test: only a getelementptr instruction of the function passes; an argument, a global or a constant never does |
| `Walker.Accepts` | llvm/lib/Target/SyncVM/SyncVMLoopIndexedLdStRecognize.cpp:124-141 | the classifier applied to an IR value, as line 168 calls it: accepted exactly when the value is a getelementptr instruction and ScalarEvolution has no recurrence for it or one with the constant step 32 |
| `Walker.Candidate` | llvm/lib/Target/SyncVM/SyncVMLoopIndexedLdStRecognize.cpp:159-168 | a load or store whose address is accepted; that address is then a getelementptr instruction |
| `Walker.AddressOf` | llvm/lib/Target/SyncVM/SyncVMLoopIndexedLdStRecognize.cpp:159-162 | the address of a load or store is one of its operands: a load's only operand, a store's second |
| `Walker.RewriteRetiresCandidate` | llvm/lib/Target/SyncVM/SyncVMLoopIndexedLdStRecognize.cpp:158-173 | after a rewrite, every accepted load or store was one before it, and the rewritten one is no longer accepted |
| `Walker.VisitInstr` | llvm/lib/Target/SyncVM/SyncVMLoopIndexedLdStRecognize.cpp:158-173 | an instruction changes the body exactly when it is a load or store with an accepted address; otherwise the body is untouched; the set of such instructions shrinks and loses this one |
| `Walker.WalkInstrs` | llvm/lib/Target/SyncVM/SyncVMLoopIndexedLdStRecognize.cpp:157-174 | after the walk of a block's instructions, no listed instruction is still accepted, and no new one is; a walk that changes nothing leaves the body as it was |
| `Walker.WalkBlocks` | llvm/lib/Target/SyncVM/SyncVMLoopIndexedLdStRecognize.cpp:156-175 | after the walk of the blocks, no accepted load or store is left in them; the preheader keeps its terminator |
| `Walker.Walk` | llvm/lib/Target/SyncVM/SyncVMLoopIndexedLdStRecognize.cpp:144-178 | a skipped loop or one not in simplify form reports no change; otherwise no accepted load or store is left in the loop; an unchanged result is the original body |
| `Walker.WalkInstrsSettled` | llvm/lib/Target/SyncVM/SyncVMLoopIndexedLdStRecognize.cpp:157-174 | a block with no accepted load or store is left alone |
| `Walker.WalkBlocksSettled` | llvm/lib/Target/SyncVM/SyncVMLoopIndexedLdStRecognize.cpp:156-175 | blocks with no accepted load or store are left alone |
| `Walker.WalkChangesIffCandidate` | llvm/lib/Target/SyncVM/SyncVMLoopIndexedLdStRecognize.cpp:145-177 | `Changed` is true exactly when the loop held at least one load or store with an accepted address |
| `Walker.WalkIdempotent` | llvm/lib/Target/SyncVM/SyncVMLoopIndexedLdStRecognize.cpp:144-178 | a second run over the same loop, with the same analysis, changes nothing |
| `Walker.RewriteKeepsRejected` | llvm/lib/Target/SyncVM/SyncVMLoopIndexedLdStRecognize.cpp:109-110 | rewriting an accepted getelementptr leaves every load and store whose address is rejected in place, with the same address, still rejected |
| `Walker.VisitKeepsRejected` | llvm/lib/Target/SyncVM/SyncVMLoopIndexedLdStRecognize.cpp:158-173 | visiting one instruction leaves every rejected load and store as it was |
| `Walker.WalkInstrsKeepsRejected` | llvm/lib/Target/SyncVM/SyncVMLoopIndexedLdStRecognize.cpp:157-174 | walking a block's instructions leaves every rejected load and store as it was |
| `Walker.WalkBlocksKeepsRejected` | llvm/lib/Target/SyncVM/SyncVMLoopIndexedLdStRecognize.cpp:156-175 | walking the loop's blocks leaves every rejected load and store as it was |
| `Walker.WalkKeepsRejected` | llvm/lib/Target/SyncVM/SyncVMLoopIndexedLdStRecognize.cpp:163-169 | a load or store whose address the classifier rejects survives the pass with the same address, and is still rejected |
| `Walker.NoUnitStrideNoChange` | llvm/lib/Target/SyncVM/SyncVMLoopIndexedLdStRecognize.cpp:130-138 | when every closed form steps by something other than one cell, no loop is changed |
| `Semantics.IncomingFrom` | llvm/lib/Target/SyncVM/SyncVMLoopIndexedLdStRecognize.cpp:99 | a phi yields a value for a block exactly when it has an entry from that block, and the value is that entry's |
| `Semantics.CellStepTrace` | llvm/lib/Target/SyncVM/SyncVMLoopIndexedLdStRecognize.cpp:115-119 | a phi advanced by one pointer-sized element over its back edge holds the address of its preheader value + 32·k in iteration k |
| `Semantics.RewriteAdvancesOneCell` | llvm/lib/Target/SyncVM/SyncVMLoopIndexedLdStRecognize.cpp:95-119 | the rewritten phi enters the loop with the seed, and in iteration k holds the seed's address plus k cells |
| `Semantics.RewriteEntersAtPointer` | llvm/lib/Target/SyncVM/SyncVMLoopIndexedLdStRecognize.cpp:98-106 | in all three cases (instruction, constant, argument) the phi's preheader value has the address of the getelementptr's pointer operand |
| `Semantics.RewriteKeepsAddressesIff` | llvm/lib/Target/SyncVM/SyncVMLoopIndexedLdStRecognize.cpp:84-142 | for a single-block loop, when the getelementptr is accepted and ScalarEvolution's recurrence `{start,+,32}` for it holds in the run, the rewritten phi holds the getelementptr's address in every iteration exactly when the pointer operand's address is `start` |
| `Pass.LoopIndexedLdStRecognize.constructor` | llvm/lib/Target/SyncVM/SyncVMLoopIndexedLdStRecognize.cpp:45-51 | the pass starts without a ScalarEvolution analysis |
| `Pass.LoopIndexedLdStRecognize.RewriteToFavorIndexedLdST` | llvm/lib/Target/SyncVM/SyncVMLoopIndexedLdStRecognize.cpp:84-122 | always reports a change, and leaves the function exactly as `Rewriter.Rewrite` describes |
| `Pass.LoopIndexedLdStRecognize.CreateBasePtr` | llvm/lib/Target/SyncVM/SyncVMLoopIndexedLdStRecognize.cpp:95-106 | returns the new phi's id and leaves the function as `Rewriter.Prepare` describes |
| `Pass.LoopIndexedLdStRecognize.ReplaceBasePtr` | llvm/lib/Target/SyncVM/SyncVMLoopIndexedLdStRecognize.cpp:109-110 | leaves the function as `Rewriter.Rewire` describes, with the phi still a phi |
| `Pass.LoopIndexedLdStRecognize.IncrementBasePtr` | llvm/lib/Target/SyncVM/SyncVMLoopIndexedLdStRecognize.cpp:114-119 | leaves the function as `Rewriter.Advance` describes |
| `Pass.LoopIndexedLdStRecognize.RunOnLoop` | llvm/lib/Target/SyncVM/SyncVMLoopIndexedLdStRecognize.cpp:144-178 | returns and leaves what `Walker.Walk` computes; the analysis field is set when the loop is walked and left as it was otherwise |
| `Pass.LoopIndexedLdStRecognize.WalkLoopBlocks` | llvm/lib/Target/SyncVM/SyncVMLoopIndexedLdStRecognize.cpp:156-175 | the outer loop over the loop's blocks returns and leaves what `Walker.WalkBlocks` computes |
| `Pass.LoopIndexedLdStRecognize.WalkFirstBlock` | llvm/lib/Target/SyncVM/SyncVMLoopIndexedLdStRecognize.cpp:156-157 | one iteration of the outer loop: the rest of the walk, from the state it leaves, completes `Walker.WalkBlocks` |
| `Pass.LoopIndexedLdStRecognize.WalkBlock` | llvm/lib/Target/SyncVM/SyncVMLoopIndexedLdStRecognize.cpp:157-174 | the inner loop over a block's instructions returns and leaves what `Walker.WalkInstrs` computes |
| `Pass.LoopIndexedLdStRecognize.Visit` | llvm/lib/Target/SyncVM/SyncVMLoopIndexedLdStRecognize.cpp:158-173 | one instruction's visit returns and leaves what `Walker.VisitInstr` computes |

## Left out

- ScalarEvolution is an input: a function `Oracle` from values to an
  optional add-recurrence. It is fixed for a whole run, so the model assumes
  the rewrite does not change ScalarEvolution's answers for the values that
  remain.
- `cast<SCEVAddRecExpr>` (line 131) assumes every non-null answer is an
  add-recurrence. The oracle's result type builds that in. A non-recurrence
  answer, which would abort in LLVM, is not modelled.
- LoopInfo, `skipLoop` and `isLoopSimplifyForm` are inputs: the `Loop`
  datatype (blocks, preheader, simplify flag) and the `skipped` flag.
  `LoopShape` states what LoopInfo guarantees of a simplify-form loop: its
  preheader exists, ends in a terminator and is outside the loop.
- `Rewriter.RewritePre` asks that the memory instruction lie in the block
  being walked, as `runOnLoop` ensures. It does not ask that `currentBB` be
  the loop's header and latch. The source assumes this without checking it.
  The model builds the same phi either way. `Semantics` reads the phi's
  back-edge entry as the one from `currentBB`.
- The start of an add-recurrence is an integer: its value in the one run
  `Semantics` considers. ScalarEvolution's symbolic start expressions are
  not modelled. The classifier never looks at the start.
- `Semantics.RewriteKeepsAddressesIff` and `Semantics.RewriteEntersAtPointer`
  take the run as inputs: `Env` gives the address of every value available
  on entry to the loop, and agrees with the preheader's constant-index
  getelementptrs. They assume the getelementptr does not read its own
  result, which valid IR allows only in unreachable code.
- `Semantics.ClosedFormHolds` and `Semantics.RewriteKeepsAddressesIff`:
  an add-recurrence does not record which loop it is over, and the source
  (lines 130-139) does not check that it is the walked loop. A step-32
  recurrence over an enclosing loop is accepted too. For example, `p[i]`
  with `i` the outer loop's induction variable, inside a single-block
  inner loop: the rewritten phi then advances every inner iteration while
  the original address stays fixed. The classifier's verdict is modelled
  as written. The address equivalence assumes the recurrence is over the
  walked loop.
- The source never checks that the recurrence starts at the
  getelementptr's pointer operand. `Semantics.RewriteKeepsAddressesIff`
  states the consequence. For `p[i]` with `i` starting at 1, the rewritten
  loop starts at `p` where the original started at `p + 32`.
- Getelementptrs carry a single index and the size of the element it
  counts. A multi-index getelementptr is not modelled. For a single index,
  the source's result element type (line 103) is the element the index
  counts, so the preheader getelementptr reuses the erased one's element
  size. Its index is 0, so that size does not change its address.
- IRBuilder's constant folding is modelled only where the pass can meet it:
  a zero-index getelementptr of a constant pointer. Every constant pointer
  (a global, an integer constant, a constant expression) is a `Global` or
  a `ConstInt`.
- LLVMContext (the `Ctx` field, line 154) and concrete LLVM types are left
  out. The `i256` index type is modelled by unbounded integers, so 256-bit
  address wrap-around is not modelled.
- `Semantics.CellStepTrace`: addresses are unbounded integers, so the
  recurrence holds for every iteration without wrap-around at 2^256.
- Iteration over a block that is being edited: the walk reads each block's
  list of ids when it reaches the block. A listed id erased before the walk
  reaches it is skipped. Instructions the rewrite inserts into that block
  are not visited. In LLVM they sit before the current instruction, and
  they are neither loads nor stores.
- Block order is LoopInfo's `blocks()` order, given in `Loop.blocks`.
- Pass registration and scheduling are not modelled: `getPassName`,
  `getAnalysisUsage`, `createSyncVMLoopIndexedLdStRecognizePass`, the pass
  ID and the `INITIALIZE_PASS_*` macros (lines 55-66, 180-189).
- The later SyncVMCombineToIndexedMemops pass, which consumes this pass's
  output, is not part of this model.
