/**
 * The loop walk of `runOnLoop` (SyncVMLoopIndexedLdStRecognize.cpp, lines
 * 144-178) as a fold over the loop's blocks and their instructions.
 *
 * Each block's instruction list is read when the walk reaches the block; the
 * rewrites of earlier instructions only insert before the current one (or in
 * the preheader) and erase a getelementptr that dominates it, so the
 * instructions still to be visited are exactly the rest of that list.
 */
module Walker {
  import opened Llvm
  import opened Classifier
  import opened Rewriter
  import opened RewriteFacts

  /** The pointer operand of a load or store (lines 159-162). */
  function AddressOf(op: Op): (a: Value)
    requires IsMemOp(op)
    ensures a in Operands(op)
    ensures op.Load? ==> op == Load(a)
    ensures op.Store? ==> op == Store(op.stored, a)
  {
    op.addr
  }

  /** Line 127: `v` is a getelementptr instruction of the function. An
      argument, a global or a constant (a getelementptr constant expression
      included) never is. */
  predicate IsGepValue(ir: IR, v: Value)
    ensures !v.Instr? ==> !IsGepValue(ir, v)
    ensures IsGepValue(ir, v) ==> v.id in ir.ops && ir.ops[v.id].op.Gep?
  {
    v.Instr? && v.id in ir.ops && ir.ops[v.id].op.Gep?
  }

  /** Lines 124-141 as called at line 168: the classifier's verdict on
      address `v`, with the getelementptr test read from the function and
      the recurrence from ScalarEvolution `se`. */
  predicate Accepts(ir: IR, se: Oracle, v: Value)
    ensures Accepts(ir, se, v) <==>
              IsGepValue(ir, v) && (se(v).None? || se(v).value.step == ConstantStep(CellSize))
  {
    AcceptedMeans(IsGepValue(ir, v), se(v));
    IsIncByOneCell(IsGepValue(ir, v), se(v))
  }

  /** Lines 159-168: instruction `id` is a load or store whose address the
      pass accepts, so the walk rewrites it when it reaches it. Its address
      is then a getelementptr instruction. */
  predicate Candidate(ir: IR, se: Oracle, id: InstrId)
    ensures Candidate(ir, se, id) ==> id in ir.ops && IsMemOp(ir.ops[id].op)
    ensures Candidate(ir, se, id) ==> IsGepValue(ir, AddressOf(ir.ops[id].op))
  {
    id in ir.ops && IsMemOp(ir.ops[id].op) && Accepts(ir, se, AddressOf(ir.ops[id].op))
  }

  /** No instruction placed in one of `blocks` is a candidate. */
  ghost predicate Settled(ir: IR, se: Oracle, blocks: seq<BlockId>) {
    forall id :: Candidate(ir, se, id) ==> ir.ops[id].parent !in blocks
  }

  /** `after` keeps the blocks of `before`, and every instruction of `after`
      older than `before`'s counter was already in `before`, in the same block. */
  ghost predicate Extends(before: IR, after: IR) {
    && after.nextId >= before.nextId
    && after.layout.Keys == before.layout.Keys
    && forall id :: id in after.ops && id < before.nextId ==>
         id in before.ops && after.ops[id].parent == before.ops[id].parent
  }

  lemma ExtendsTransitive(a: IR, b: IR, c: IR)
    requires Extends(a, b) && Extends(b, c)
    ensures Extends(a, c)
  {
  }

  /** Instructions still to visit in `bb` stay in `bb`, or are gone. */
  lemma ExtendsKeepsRest(before: IR, after: IR, rest: seq<InstrId>, bb: BlockId)
    requires Extends(before, after)
    requires forall id :: id in rest ==> id < before.nextId && (id in before.ops ==> before.ops[id].parent == bb)
    ensures forall id :: id in rest ==> id < after.nextId && (id in after.ops ==> after.ops[id].parent == bb)
  {
  }

  /** The outcome of a walk: the IR it leaves and the `Changed` flag. */
  datatype Progress = Progress(ir: IR, changed: bool)

  // ---------------------------------------------------------------------
  // One rewrite, as the walk sees it

  lemma ReplaceUseKeepsKind(op: Op, from: InstrId, to: Value)
    ensures ReplaceUse(op, from, to).Gep? == op.Gep?
    ensures ReplaceUse(op, from, to).Phi? == op.Phi?
    ensures IsMemOp(ReplaceUse(op, from, to)) == IsMemOp(op)
    ensures IsMemOp(op) ==> AddressOf(ReplaceUse(op, from, to)) == Subst(AddressOf(op), from, to)
  {
  }

  /** Proof helper (unfolds `NewIds` for the solver): the rewrite only hands
      out ids at or above the old `nextId`. */
  lemma NewIdsAreFresh(ir: IR, gep: InstrId)
    requires gep in ir.ops && ir.ops[gep].op.Gep?
    ensures forall id :: id in NewIds(ir, gep) ==> id >= ir.nextId
  {
  }

  /** A rewrite keeps the blocks and every surviving instruction in its block,
      and only adds fresh ids. */
  lemma RewriteExtends(ir: IR, gep: InstrId, mi: InstrId, bb: BlockId, pre: BlockId, r: IR)
    requires RewritePre(ir, gep, mi, bb, pre) && RewriteOutcome(ir, gep, mi, bb, pre, r)
    ensures Extends(ir, r) && r.nextId > ir.nextId
  {
    NewIdsAreFresh(ir, gep);
  }

  /** A surviving address other than the erased getelementptr keeps the
      classifier's verdict. */
  lemma AcceptsUnchanged(ir: IR, se: Oracle, gep: InstrId, mi: InstrId, bb: BlockId, pre: BlockId, r: IR, v: Value)
    requires RewritePre(ir, gep, mi, bb, pre) && RewriteOutcome(ir, gep, mi, bb, pre, r)
    requires ValueBelow(v, ir.nextId) && v != Instr(gep)
    ensures Accepts(r, se, v) == Accepts(ir, se, v)
  {
    if v.Instr? {
      NewIdsAreFresh(ir, gep);
      assert v.id in r.ops <==> v.id in ir.ops;
      if v.id in ir.ops {
        ReplaceUseKeepsKind(ir.ops[v.id].op, gep, Instr(PhiId(ir)));
      }
    }
  }

  /** The phi and the getelementptrs the rewrite adds are neither loads nor
      stores. */
  lemma NewInstrsAreNotCandidates(ir: IR, se: Oracle, gep: InstrId, mi: InstrId, bb: BlockId, pre: BlockId, r: IR)
    requires RewritePre(ir, gep, mi, bb, pre) && RewriteOutcome(ir, gep, mi, bb, pre, r)
    ensures forall id :: id in NewIds(ir, gep) ==> !Candidate(r, se, id)
  {
    forall id | id in NewIds(ir, gep)
      ensures id in r.ops && !IsMemOp(r.ops[id].op)
    {
      assert id == PhiId(ir) || id == IncId(ir, gep) || (NeedsInitGep(ir, gep) && id == InitGepId(ir));
    }
  }

  /** A candidate after the rewrite was one before it, and its address was
      not the erased getelementptr. */
  lemma CandidateBefore(ir: IR, se: Oracle, gep: InstrId, mi: InstrId, bb: BlockId, pre: BlockId, r: IR, id: InstrId)
    requires RewritePre(ir, gep, mi, bb, pre) && RewriteOutcome(ir, gep, mi, bb, pre, r)
    requires Candidate(r, se, id)
    ensures Candidate(ir, se, id)
    ensures AddressOf(ir.ops[id].op) != Instr(gep)
  {
    NewInstrsAreNotCandidates(ir, se, gep, mi, bb, pre, r);
    assert id in ir.ops && id != gep;
    var op := ir.ops[id].op;
    assert r.ops[id].op == ReplaceUse(op, gep, Instr(PhiId(ir)));
    ReplaceUseKeepsKind(op, gep, Instr(PhiId(ir)));
    var a := AddressOf(op);
    if a == Instr(gep) {
      assert false;
    }
    assert ValueBelow(a, ir.nextId);
    AcceptsUnchanged(ir, se, gep, mi, bb, pre, r, a);
  }

  /** The rewrite at `mi` creates no candidate and retires `mi`. */
  lemma RewriteRetiresCandidate(ir: IR, se: Oracle, gep: InstrId, mi: InstrId, bb: BlockId, pre: BlockId, r: IR)
    requires RewritePre(ir, gep, mi, bb, pre) && RewriteOutcome(ir, gep, mi, bb, pre, r)
    requires AddressOf(ir.ops[mi].op) == Instr(gep)
    ensures forall id :: Candidate(r, se, id) ==> Candidate(ir, se, id) && id != mi
  {
    forall id | Candidate(r, se, id)
      ensures Candidate(ir, se, id) && id != mi
    {
      CandidateBefore(ir, se, gep, mi, bb, pre, r, id);
    }
  }

  // ---------------------------------------------------------------------
  // The walk

  /** What holds at every step of the walk of block `bb`: the IR is well
      formed and the preheader `pre`, outside `bb`, still ends in its
      terminator. */
  ghost predicate WalkState(ir: IR, bb: BlockId, pre: BlockId) {
    WellFormed(ir) && EndsInTerminator(ir, pre) && pre != bb
  }

  /** Lines 158-173 for one instruction `id` of block `bb`: a load or store
      whose address is accepted is rewritten and reports a change; any other
      instruction is skipped. */
  function VisitInstr(ir: IR, se: Oracle, id: InstrId, bb: BlockId, pre: BlockId): (r: Progress)
    requires WalkState(ir, bb, pre) && (id in ir.ops ==> ir.ops[id].parent == bb)
    ensures WalkState(r.ir, bb, pre) && Extends(ir, r.ir)
    ensures r.changed <==> Candidate(ir, se, id)
    ensures !r.changed ==> r.ir == ir
    ensures r.changed ==> r.ir.nextId > ir.nextId
    ensures forall x :: Candidate(r.ir, se, x) ==> Candidate(ir, se, x) && x != id
  {
    if id !in ir.ops || !IsMemOp(ir.ops[id].op) then Progress(ir, false)
    else
      var a := AddressOf(ir.ops[id].op);
      if !Accepts(ir, se, a) then Progress(ir, false)
      else
        var r := Rewrite(ir, a.id, id, bb, pre);
        RewriteSummary(ir, a.id, id, bb, pre);
        RewriteExtends(ir, a.id, id, bb, pre, r);
        RewriteRetiresCandidate(ir, se, a.id, id, bb, pre, r);
        Progress(r, true)
  }

  /** Lines 157-174: the instructions `rest` of block `bb`, in order; the flag
      is set when any of them was rewritten. */
  function WalkInstrs(ir: IR, se: Oracle, rest: seq<InstrId>, bb: BlockId, pre: BlockId): (r: Progress)
    requires WalkState(ir, bb, pre)
    requires forall id :: id in rest ==> id < ir.nextId && (id in ir.ops ==> ir.ops[id].parent == bb)
    ensures WalkState(r.ir, bb, pre) && Extends(ir, r.ir)
    ensures !r.changed ==> r.ir == ir
    ensures r.changed ==> r.ir.nextId > ir.nextId
    ensures forall x :: Candidate(r.ir, se, x) ==> Candidate(ir, se, x) && x !in rest
    decreases |rest|
  {
    if rest == [] then Progress(ir, false)
    else
      var s := VisitInstr(ir, se, rest[0], bb, pre);
      assert forall id :: id in rest[1..] ==> id in rest;
      ExtendsKeepsRest(ir, s.ir, rest[1..], bb);
      var t := WalkInstrs(s.ir, se, rest[1..], bb, pre);
      ExtendsTransitive(ir, s.ir, t.ir);
      Progress(t.ir, s.changed || t.changed)
  }

  /** The candidates left after walking block `b` and then `tail` lie in
      neither. */
  lemma CandidatesAfterBlock(ir: IR, mid: IR, fin: IR, se: Oracle, blocks: seq<BlockId>)
    requires blocks != [] && WellFormed(ir) && blocks[0] in ir.layout && Extends(ir, mid)
    requires forall x :: Candidate(mid, se, x) ==> Candidate(ir, se, x) && x !in ir.layout[blocks[0]]
    requires forall x :: Candidate(fin, se, x) ==> Candidate(mid, se, x) && mid.ops[x].parent !in blocks[1..]
    ensures forall x :: Candidate(fin, se, x) ==> Candidate(ir, se, x) && ir.ops[x].parent !in blocks
  {
    forall x: InstrId | Candidate(fin, se, x)
      ensures Candidate(ir, se, x) && ir.ops[x].parent !in blocks
    {
      assert x < ir.nextId;
      assert mid.ops[x].parent == ir.ops[x].parent;
      assert blocks == [blocks[0]] + blocks[1..];
    }
  }

  /** Lines 156-175: every block of `blocks` in turn, each block's instruction
      list read when the walk reaches it. */
  function WalkBlocks(ir: IR, se: Oracle, blocks: seq<BlockId>, pre: BlockId): (r: Progress)
    requires WellFormed(ir) && EndsInTerminator(ir, pre) && pre !in blocks
    requires forall b :: b in blocks ==> b in ir.layout
    ensures WellFormed(r.ir) && EndsInTerminator(r.ir, pre) && Extends(ir, r.ir)
    ensures !r.changed ==> r.ir == ir
    ensures r.changed ==> r.ir.nextId > ir.nextId
    ensures forall x :: Candidate(r.ir, se, x) ==> Candidate(ir, se, x) && ir.ops[x].parent !in blocks
    decreases |blocks|
  {
    if blocks == [] then Progress(ir, false)
    else
      var b := blocks[0];
      var s := WalkInstrs(ir, se, ir.layout[b], b, pre);
      assert forall x :: x in blocks[1..] ==> x in blocks;
      var t := WalkBlocks(s.ir, se, blocks[1..], pre);
      ExtendsTransitive(ir, s.ir, t.ir);
      CandidatesAfterBlock(ir, s.ir, t.ir, se, blocks);
      Progress(t.ir, s.changed || t.changed)
  }

  /** One step of the walk of a block: the first instruction, then the rest
      from the state it leaves. */
  lemma WalkInstrsStep(ir: IR, se: Oracle, rest: seq<InstrId>, bb: BlockId, pre: BlockId)
    requires WalkState(ir, bb, pre) && rest != []
    requires forall id :: id in rest ==> id < ir.nextId && (id in ir.ops ==> ir.ops[id].parent == bb)
    ensures rest[0] in ir.ops ==> ir.ops[rest[0]].parent == bb
    ensures var s := VisitInstr(ir, se, rest[0], bb, pre);
      && (forall id :: id in rest[1..] ==> id < s.ir.nextId && (id in s.ir.ops ==> s.ir.ops[id].parent == bb))
      && var t := WalkInstrs(s.ir, se, rest[1..], bb, pre);
         WalkInstrs(ir, se, rest, bb, pre) == Progress(t.ir, s.changed || t.changed)
  {
    var s := VisitInstr(ir, se, rest[0], bb, pre);
    assert forall id :: id in rest[1..] ==> id in rest;
    ExtendsKeepsRest(ir, s.ir, rest[1..], bb);
  }

  /** One step of the walk of a loop: the first block, then the others from
      the state it leaves. */
  lemma WalkBlocksStep(ir: IR, se: Oracle, blocks: seq<BlockId>, pre: BlockId)
    requires WellFormed(ir) && EndsInTerminator(ir, pre) && pre !in blocks && blocks != []
    requires forall b :: b in blocks ==> b in ir.layout
    ensures WalkState(ir, blocks[0], pre) && blocks[0] in ir.layout
    ensures var s := WalkInstrs(ir, se, ir.layout[blocks[0]], blocks[0], pre);
      && pre !in blocks[1..] && (forall b :: b in blocks[1..] ==> b in s.ir.layout)
      && var t := WalkBlocks(s.ir, se, blocks[1..], pre);
         WalkBlocks(ir, se, blocks, pre) == Progress(t.ir, s.changed || t.changed)
  {
    assert forall b :: b in blocks[1..] ==> b in blocks;
  }

  // ---------------------------------------------------------------------
  // Rejected loads and stores are left alone

  /** Every load or store of `before` whose address the classifier rejects
      is still in `after`, still a load or store with the same address, and
      still rejected. */
  ghost predicate RejectedKept(before: IR, after: IR, se: Oracle) {
    forall id :: id in before.ops && IsMemOp(before.ops[id].op) && !Candidate(before, se, id) ==>
      && id in after.ops && IsMemOp(after.ops[id].op)
      && AddressOf(after.ops[id].op) == AddressOf(before.ops[id].op)
      && !Candidate(after, se, id)
  }

  lemma RejectedKeptTransitive(a: IR, b: IR, c: IR, se: Oracle)
    requires RejectedKept(a, b, se) && RejectedKept(b, c, se)
    ensures RejectedKept(a, c, se)
  {
    forall id | id in a.ops && IsMemOp(a.ops[id].op) && !Candidate(a, se, id)
      ensures id in c.ops && IsMemOp(c.ops[id].op) && AddressOf(c.ops[id].op) == AddressOf(a.ops[id].op)
      ensures !Candidate(c, se, id)
    {
      assert id in b.ops && IsMemOp(b.ops[id].op) && !Candidate(b, se, id);
    }
  }

  /** Lines 109-110 seen from another load or store: rewriting the accepted
      getelementptr `gep` leaves every load and store whose address is
      rejected, since that address cannot be `gep`. */
  lemma RewriteKeepsRejected(ir: IR, se: Oracle, gep: InstrId, mi: InstrId, bb: BlockId, pre: BlockId, r: IR)
    requires RewritePre(ir, gep, mi, bb, pre) && RewriteOutcome(ir, gep, mi, bb, pre, r)
    requires Accepts(ir, se, Instr(gep))
    ensures RejectedKept(ir, r, se)
  {
    forall id | id in ir.ops && IsMemOp(ir.ops[id].op) && !Candidate(ir, se, id)
      ensures id in r.ops && IsMemOp(r.ops[id].op) && AddressOf(r.ops[id].op) == AddressOf(ir.ops[id].op)
      ensures !Candidate(r, se, id)
    {
      var op := ir.ops[id].op;
      var a := AddressOf(op);
      assert a != Instr(gep) && id != gep;
      assert r.ops[id].op == ReplaceUse(op, gep, Instr(PhiId(ir)));
      ReplaceUseKeepsKind(op, gep, Instr(PhiId(ir)));
      assert ValueBelow(a, ir.nextId);
      AcceptsUnchanged(ir, se, gep, mi, bb, pre, r, a);
    }
  }

  /** Visiting one instruction leaves every rejected load and store. */
  lemma VisitKeepsRejected(ir: IR, se: Oracle, id: InstrId, bb: BlockId, pre: BlockId)
    requires WalkState(ir, bb, pre) && (id in ir.ops ==> ir.ops[id].parent == bb)
    ensures RejectedKept(ir, VisitInstr(ir, se, id, bb, pre).ir, se)
  {
    if Candidate(ir, se, id) {
      var a := AddressOf(ir.ops[id].op);
      assert RewritePre(ir, a.id, id, bb, pre);
      var r := Rewrite(ir, a.id, id, bb, pre);
      RewriteSummary(ir, a.id, id, bb, pre);
      RewriteKeepsRejected(ir, se, a.id, id, bb, pre, r);
    }
  }

  lemma {:induction false} WalkInstrsKeepsRejected(ir: IR, se: Oracle, rest: seq<InstrId>, bb: BlockId, pre: BlockId)
    requires WalkState(ir, bb, pre)
    requires forall id :: id in rest ==> id < ir.nextId && (id in ir.ops ==> ir.ops[id].parent == bb)
    ensures RejectedKept(ir, WalkInstrs(ir, se, rest, bb, pre).ir, se)
    decreases |rest|
  {
    if rest != [] {
      WalkInstrsStep(ir, se, rest, bb, pre);
      var s := VisitInstr(ir, se, rest[0], bb, pre);
      VisitKeepsRejected(ir, se, rest[0], bb, pre);
      WalkInstrsKeepsRejected(s.ir, se, rest[1..], bb, pre);
      RejectedKeptTransitive(ir, s.ir, WalkInstrs(s.ir, se, rest[1..], bb, pre).ir, se);
    }
  }

  lemma {:induction false} WalkBlocksKeepsRejected(ir: IR, se: Oracle, blocks: seq<BlockId>, pre: BlockId)
    requires WellFormed(ir) && EndsInTerminator(ir, pre) && pre !in blocks
    requires forall b :: b in blocks ==> b in ir.layout
    ensures RejectedKept(ir, WalkBlocks(ir, se, blocks, pre).ir, se)
    decreases |blocks|
  {
    if blocks != [] {
      WalkBlocksStep(ir, se, blocks, pre);
      var b := blocks[0];
      var s := WalkInstrs(ir, se, ir.layout[b], b, pre);
      WalkInstrsKeepsRejected(ir, se, ir.layout[b], b, pre);
      WalkBlocksKeepsRejected(s.ir, se, blocks[1..], pre);
      RejectedKeptTransitive(ir, s.ir, WalkBlocks(s.ir, se, blocks[1..], pre).ir, se);
    }
  }

  /** What `runOnLoop` sees of a loop: its blocks in LoopInfo's order, its
      preheader if it has one, and whether it is in loop-simplify form. */
  datatype Loop = Loop(blocks: seq<BlockId>, preheader: Option<BlockId>, simplifyForm: bool)

  /** What LoopInfo guarantees of a loop in simplify form: a preheader outside
      the loop that ends in its terminator, and blocks of the function. */
  ghost predicate LoopShape(ir: IR, loop: Loop) {
    loop.simplifyForm ==>
      && loop.preheader.Some?
      && EndsInTerminator(ir, loop.preheader.value)
      && loop.preheader.value !in loop.blocks
      && forall b :: b in loop.blocks ==> b in ir.layout
  }

  /** Lines 144-178: a loop the pass manager skips, or one not in simplify
      form, is left alone; otherwise every load and store of the loop whose
      address steps by one cell is rewritten, and no such load or store is
      left in the loop. `skipped` is the answer of `skipLoop`, `se` that of
      ScalarEvolution. */
  function Walk(ir: IR, se: Oracle, loop: Loop, skipped: bool): (r: Progress)
    requires WellFormed(ir) && LoopShape(ir, loop)
    ensures WellFormed(r.ir) && LoopShape(r.ir, loop) && Extends(ir, r.ir)
    ensures !r.changed ==> r.ir == ir
    ensures r.changed ==> r.ir.nextId > ir.nextId
    ensures skipped || !loop.simplifyForm ==> !r.changed
    ensures !skipped && loop.simplifyForm ==> Settled(r.ir, se, loop.blocks)
  {
    if skipped then Progress(ir, false)
    else if !loop.simplifyForm then Progress(ir, false)
    else
      var r := WalkBlocks(ir, se, loop.blocks, loop.preheader.value);
      assert forall x :: x in r.ir.ops && x in ir.ops ==> r.ir.ops[x].parent == ir.ops[x].parent;
      r
  }

  // ---------------------------------------------------------------------
  // What the walk guarantees

  /** Walking instructions none of which is a candidate changes nothing. */
  lemma {:induction false} WalkInstrsSettled(ir: IR, se: Oracle, rest: seq<InstrId>, bb: BlockId, pre: BlockId)
    requires WalkState(ir, bb, pre)
    requires forall id :: id in rest ==> id < ir.nextId && (id in ir.ops ==> ir.ops[id].parent == bb)
    requires forall id :: id in rest ==> !Candidate(ir, se, id)
    ensures WalkInstrs(ir, se, rest, bb, pre) == Progress(ir, false)
    decreases |rest|
  {
    if rest != [] {
      assert forall id :: id in rest[1..] ==> id in rest;
      WalkInstrsSettled(ir, se, rest[1..], bb, pre);
    }
  }

  /** Walking blocks that hold no candidate changes nothing. */
  lemma {:induction false} WalkBlocksSettled(ir: IR, se: Oracle, blocks: seq<BlockId>, pre: BlockId)
    requires WellFormed(ir) && EndsInTerminator(ir, pre) && pre !in blocks
    requires forall b :: b in blocks ==> b in ir.layout
    requires Settled(ir, se, blocks)
    ensures WalkBlocks(ir, se, blocks, pre) == Progress(ir, false)
    decreases |blocks|
  {
    if blocks != [] {
      var b := blocks[0];
      WalkInstrsSettled(ir, se, ir.layout[b], b, pre);
      assert forall x :: x in blocks[1..] ==> x in blocks;
      WalkBlocksSettled(ir, se, blocks[1..], pre);
    }
  }

  /** A walked loop reports a change exactly when it held a load or store
      whose address the classifier accepts. */
  lemma WalkChangesIffCandidate(ir: IR, se: Oracle, loop: Loop)
    requires WellFormed(ir) && LoopShape(ir, loop) && loop.simplifyForm
    ensures Walk(ir, se, loop, false).changed <==> !Settled(ir, se, loop.blocks)
  {
    if Settled(ir, se, loop.blocks) {
      WalkBlocksSettled(ir, se, loop.blocks, loop.preheader.value);
    }
  }

  /** Running the pass a second time on the same loop, with the same answers
      from ScalarEvolution, changes nothing. */
  lemma WalkIdempotent(ir: IR, se: Oracle, loop: Loop, skipped: bool)
    requires WellFormed(ir) && LoopShape(ir, loop)
    ensures Walk(Walk(ir, se, loop, skipped).ir, se, loop, skipped) == Progress(Walk(ir, se, loop, skipped).ir, false)
  {
    var r := Walk(ir, se, loop, skipped);
    if !skipped && loop.simplifyForm {
      WalkBlocksSettled(r.ir, se, loop.blocks, loop.preheader.value);
    }
  }

  /** Lines 163-169: a load or store whose address the classifier rejects
      (a `continue` of the walk) survives the pass with the same address and
      is still rejected. */
  lemma WalkKeepsRejected(ir: IR, se: Oracle, loop: Loop, skipped: bool, id: InstrId)
    requires WellFormed(ir) && LoopShape(ir, loop)
    requires id in ir.ops && IsMemOp(ir.ops[id].op) && !Candidate(ir, se, id)
    ensures var r := Walk(ir, se, loop, skipped).ir;
      && id in r.ops && IsMemOp(r.ops[id].op)
      && AddressOf(r.ops[id].op) == AddressOf(ir.ops[id].op)
      && !Candidate(r, se, id)
  {
    if !skipped && loop.simplifyForm {
      WalkBlocksKeepsRejected(ir, se, loop.blocks, loop.preheader.value);
    }
  }

  /** With ScalarEvolution reporting a closed form whose step is never one
      cell, no loop is changed. */
  lemma NoUnitStrideNoChange(ir: IR, se: Oracle, loop: Loop, skipped: bool)
    requires WellFormed(ir) && LoopShape(ir, loop)
    requires forall v :: se(v).Some? && se(v).value.step != ConstantStep(CellSize)
    ensures Walk(ir, se, loop, skipped) == Progress(ir, false)
  {
    if !skipped && loop.simplifyForm {
      assert forall id :: !Candidate(ir, se, id);
      WalkBlocksSettled(ir, se, loop.blocks, loop.preheader.value);
    }
  }
}
