/**
 * The loop pass itself: `runOnLoop` walking the loop and
 * `RewriteToFavorIndexedLdST` editing the function body in place through the
 * builder-like mutators of `Llvm.Function`. Each method is proved to leave
 * exactly the state the pure model of the same lines describes.
 */
module Pass {
  import opened Llvm
  import opened Classifier
  import opened Rewriter
  import opened RewriteFacts
  import opened Walker

  class LoopIndexedLdStRecognize {
    /** ScalarEvolution's analysis, fetched by `runOnLoop` (null until then). */
    var se: Option<Oracle>

    constructor ()
      ensures se.None?
    {
      se := None;
    }

    /** Lines 84-122: replaces the getelementptr `basePtr` by a phi that starts
        at its pointer operand and is advanced by one pointer-sized element
        just before the load or store `currentI`. Always reports a change. */
    method RewriteToFavorIndexedLdST(f: Function, basePtr: Value, currentI: InstrId, currentBB: BlockId, pre: BlockId)
      returns (changed: bool)
      requires basePtr.Instr? && RewritePre(f.State(), basePtr.id, currentI, currentBB, pre)
      modifies f
      ensures changed
      ensures f.State() == Rewrite(old(f.State()), basePtr.id, currentI, currentBB, pre)
    {
      ghost var ir0 := f.State();
      PreparedForFinish(ir0, basePtr.id, currentI, currentBB, pre);
      var newBasePtr := CreateBasePtr(f, basePtr.id, currentBB, pre);
      ghost var prepared := f.State();
      ReplaceBasePtr(f, basePtr.id, newBasePtr);
      IncrementBasePtr(f, newBasePtr, currentI, currentBB);
      assert f.State() == Finish(prepared, basePtr.id, newBasePtr, currentI, currentBB);
      changed := true;
    }

    /** Lines 95-106: the phi at the first non-phi position of `currentBB`,
        with its entry from the preheader `pre`. */
    method CreateBasePtr(f: Function, gep: InstrId, currentBB: BlockId, pre: BlockId) returns (newBasePtr: InstrId)
      requires WellFormed(f.State()) && gep in f.ops && f.ops[gep].op.Gep? && currentBB in f.layout
      requires pre in f.layout && pre != currentBB
      requires !f.ops[gep].op.ptr.Instr? ==> |f.layout[pre]| > 0
      modifies f
      ensures newBasePtr == PhiId(old(f.State()))
      ensures f.State() == Prepare(old(f.State()), gep, currentBB, pre)
    {
      ghost var ir0 := f.State();
      var gepInst := f.ops[gep].op;
      var srcOperand := gepInst.ptr;
      assert ValueBelow(srcOperand, ir0.nextId) by { assert srcOperand in Operands(gepInst); }
      newBasePtr := f.Insert(currentBB, FirstNonPhi(f.State(), f.layout[currentBB]), Phi([]));
      assert f.State() == PlacePhi(ir0, currentBB);
      ghost var placed := f.State();
      if srcOperand.Instr? {
        f.AddIncoming(newBasePtr, srcOperand, pre);
      } else {
        var newGepInit := f.CreateInBoundsGep(pre, |f.layout[pre]| - 1, srcOperand, ConstInt(0), gepInst.elemSize);
        f.AddIncoming(newBasePtr, newGepInit, pre);
      }
      assert f.State() == SeedPhi(placed, newBasePtr, srcOperand, gepInst.elemSize, pre);
    }

    /** Lines 109-110: every use of `gep` now reads the phi; `gep` is erased. */
    method ReplaceBasePtr(f: Function, gep: InstrId, newBasePtr: InstrId)
      requires WellFormed(f.State()) && gep in f.ops && IsPhi(f.State(), newBasePtr) && newBasePtr != gep
      modifies f
      ensures f.State() == Rewire(old(f.State()), gep, newBasePtr)
      ensures IsPhi(f.State(), newBasePtr)
    {
      ghost var ir0 := f.State();
      assert ir0.ops[gep].parent in ir0.layout && gep in ir0.layout[ir0.ops[gep].parent];
      f.ReplaceAllUsesWith(gep, Instr(newBasePtr));
      f.EraseFromParent(gep);
      assert ir0.ops[newBasePtr].op.Phi?;
    }

    /** Lines 114-119: the increment by one pointer-sized element, just before
        `currentI`, becomes the phi's entry from `currentBB`. */
    method IncrementBasePtr(f: Function, newBasePtr: InstrId, currentI: InstrId, currentBB: BlockId)
      requires WellFormed(f.State()) && IsPhi(f.State(), newBasePtr)
      requires currentI in f.ops && f.ops[currentI].parent == currentBB
      modifies f
      ensures f.State() == Advance(old(f.State()), newBasePtr, currentI, currentBB)
    {
      assert currentI in f.layout[currentBB];
      var incNewBasePtr := f.CreateInBoundsGep(currentBB, IndexOf(f.layout[currentBB], currentI),
                                               Instr(newBasePtr), ConstInt(1), PointerSize);
      f.AddIncoming(newBasePtr, incNewBasePtr, currentBB);
    }

    /** Lines 144-178: a skipped loop, or one not in simplify form, is left
        alone; otherwise every load and store of every block is visited in
        order and rewritten when its address steps by one cell. */
    method RunOnLoop(f: Function, loop: Loop, skipped: bool, analysis: Oracle) returns (changed: bool)
      requires WellFormed(f.State()) && LoopShape(f.State(), loop)
      modifies this, f
      ensures changed == Walk(old(f.State()), analysis, loop, skipped).changed
      ensures f.State() == Walk(old(f.State()), analysis, loop, skipped).ir
      ensures !skipped && loop.simplifyForm ==> se == Some(analysis)
      ensures skipped || !loop.simplifyForm ==> se == old(se)
    {
      changed := false;
      if skipped {
        return;
      }
      if !loop.simplifyForm {
        return;
      }
      se := Some(analysis);
      assert Walk(f.State(), analysis, loop, skipped) == WalkBlocks(f.State(), analysis, loop.blocks, loop.preheader.value);
      changed := WalkLoopBlocks(f, loop.blocks, loop.preheader.value);
    }

    /** Lines 156-175: the blocks of the loop in order, each walked with the
        instruction list it has when the walk reaches it. */
    method WalkLoopBlocks(f: Function, blocks: seq<BlockId>, pre: BlockId) returns (changed: bool)
      requires se.Some? && WellFormed(f.State()) && EndsInTerminator(f.State(), pre) && pre !in blocks
      requires forall b :: b in blocks ==> b in f.layout
      modifies f
      ensures var w := WalkBlocks(old(f.State()), se.value, blocks, pre);
        changed == w.changed && f.State() == w.ir
    {
      ghost var walked := WalkBlocks(f.State(), se.value, blocks, pre);
      changed := false;
      var i := 0;
      while i < |blocks|
        invariant 0 <= i <= |blocks|
        invariant WellFormed(f.State()) && EndsInTerminator(f.State(), pre) && pre !in blocks[i..]
        invariant forall b :: b in blocks[i..] ==> b in f.layout
        invariant var rest := WalkBlocks(f.State(), se.value, blocks[i..], pre);
          walked == Progress(rest.ir, changed || rest.changed)
      {
        var blockChanged := WalkFirstBlock(f, blocks[i..], pre);
        assert blocks[i..][1..] == blocks[i + 1..];
        changed := changed || blockChanged;
        i := i + 1;
      }
      assert blocks[i..] == [];
      assert walked == Progress(f.State(), changed);
    }

    /** The first block of `blocks`, walked from the current state; the rest
        of the walk then starts from the state it leaves. */
    method WalkFirstBlock(f: Function, blocks: seq<BlockId>, pre: BlockId) returns (changed: bool)
      requires se.Some? && WellFormed(f.State()) && EndsInTerminator(f.State(), pre) && pre !in blocks
      requires blocks != [] && forall b :: b in blocks ==> b in f.layout
      modifies f
      ensures WellFormed(f.State()) && EndsInTerminator(f.State(), pre) && pre !in blocks[1..]
      ensures forall b :: b in blocks[1..] ==> b in f.layout
      ensures var t := WalkBlocks(f.State(), se.value, blocks[1..], pre);
        WalkBlocks(old(f.State()), se.value, blocks, pre) == Progress(t.ir, changed || t.changed)
    {
      WalkBlocksStep(f.State(), se.value, blocks, pre);
      changed := WalkBlock(f, blocks[0], pre);
    }

    /** Lines 157-174 for block `bb`: its instructions, as listed when the
        walk reaches it. */
    method WalkBlock(f: Function, bb: BlockId, pre: BlockId) returns (changed: bool)
      requires se.Some? && WalkState(f.State(), bb, pre) && bb in f.layout
      modifies f
      ensures var w := WalkInstrs(old(f.State()), se.value, old(f.layout[bb]), bb, pre);
        changed == w.changed && f.State() == w.ir
    {
      ghost var ir0 := f.State();
      var insts := f.layout[bb];
      assert forall id :: id in insts ==> id in ir0.ops && ir0.ops[id].parent == bb;
      changed := false;
      var j := 0;
      while j < |insts|
        invariant 0 <= j <= |insts|
        invariant WalkState(f.State(), bb, pre)
        invariant forall id :: id in insts[j..] ==> id < f.nextId && (id in f.ops ==> f.ops[id].parent == bb)
        invariant var rest := WalkInstrs(f.State(), se.value, insts[j..], bb, pre);
          WalkInstrs(ir0, se.value, insts, bb, pre) == Progress(rest.ir, changed || rest.changed)
      {
        ghost var before := f.State();
        WalkInstrsStep(before, se.value, insts[j..], bb, pre);
        assert insts[j..][1..] == insts[j + 1..];
        var visited := Visit(f, insts[j], bb, pre);
        changed := changed || visited;
        j := j + 1;
      }
    }

    /** Lines 158-173 for the instruction `id`: a load or store whose address
        the classifier accepts is rewritten; anything else is skipped. */
    method Visit(f: Function, id: InstrId, bb: BlockId, pre: BlockId) returns (changed: bool)
      requires se.Some? && WalkState(f.State(), bb, pre) && (id in f.ops ==> f.ops[id].parent == bb)
      modifies f
      ensures var v := VisitInstr(old(f.State()), se.value, id, bb, pre);
        changed == v.changed && f.State() == v.ir
    {
      changed := false;
      if id in f.ops && IsMemOp(f.ops[id].op) {
        var basePtrValue := AddressOf(f.ops[id].op);
        if Accepts(f.State(), se.value, basePtrValue) {
          changed := RewriteToFavorIndexedLdST(f, basePtrValue, id, bb, pre);
        }
      }
    }
  }
}
