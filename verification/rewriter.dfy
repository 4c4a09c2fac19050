/**
 * The address rewriter `RewriteToFavorIndexedLdST` as a function of the
 * function body, split into the steps the pass performs, and what the rewrite
 * guarantees about the edited body.
 */
module Rewriter {
  import opened Llvm

  /** What the pass establishes before rewriting: `gep` is a getelementptr of
      the function, `mi` a load or store of block `bb`, and `pre` (the loop
      preheader) another block, closed by a terminator whenever a
      zero-index getelementptr has to be placed before that terminator. */
  ghost predicate RewritePre(ir: IR, gep: InstrId, mi: InstrId, bb: BlockId, pre: BlockId) {
    && WellFormed(ir)
    && gep in ir.ops && ir.ops[gep].op.Gep?
    && mi in ir.ops && ir.ops[mi].parent == bb && IsMemOp(ir.ops[mi].op)
    && pre in ir.layout && pre != bb
    && (!ir.ops[gep].op.ptr.Instr? ==> EndsInTerminator(ir, pre))
  }

  /** The id of the phi the rewrite creates (its first new instruction). */
  function PhiId(ir: IR): InstrId {
    ir.nextId
  }

  /** Whether the rewrite materialises a zero-index getelementptr in the
      preheader: when the pointer operand is neither an instruction nor a
      constant the builder folds the getelementptr into, that is, when it is
      a function argument. */
  predicate NeedsInitGep(ir: IR, gep: InstrId)
    requires gep in ir.ops && ir.ops[gep].op.Gep?
  {
    ir.ops[gep].op.ptr.Argument?
  }

  /** The id of the zero-index getelementptr, when one is created. */
  function InitGepId(ir: IR): InstrId {
    ir.nextId + 1
  }

  /** The id of the getelementptr that advances the phi by one element. */
  function IncId(ir: IR, gep: InstrId): InstrId
    requires gep in ir.ops && ir.ops[gep].op.Gep?
  {
    if NeedsInitGep(ir, gep) then ir.nextId + 2 else ir.nextId + 1
  }

  /** The value the phi receives from the preheader. */
  function Seed(ir: IR, gep: InstrId): Value
    requires gep in ir.ops && ir.ops[gep].op.Gep?
  {
    if NeedsInitGep(ir, gep) then Instr(InitGepId(ir))
    else Subst(ir.ops[gep].op.ptr, gep, Instr(PhiId(ir)))
  }

  /** The preheader entry the first half of the rewrite gives the phi,
      before uses of the getelementptr are redirected. */
  function SeedValue(ir: IR, ptr: Value): Value {
    if ptr.Argument? then Instr(ir.nextId) else ptr
  }

  /** The ids the rewrite hands out. */
  function NewIds(ir: IR, gep: InstrId): set<InstrId>
    requires gep in ir.ops && ir.ops[gep].op.Gep?
  {
    if NeedsInitGep(ir, gep) then {ir.nextId, ir.nextId + 1, ir.nextId + 2}
    else {ir.nextId, ir.nextId + 1}
  }

  // ---------------------------------------------------------------------
  // The steps, in the order the pass performs them

  /** Lines 95-96: an empty phi at the first non-phi position of `bb`. */
  function PlacePhi(ir: IR, bb: BlockId): (r: IR)
    requires WellFormed(ir) && bb in ir.layout
    ensures WellFormed(r) && r.nextId == ir.nextId + 1 && r.layout.Keys == ir.layout.Keys
    ensures r.ops.Keys == ir.ops.Keys + {ir.nextId} && IsPhi(r, ir.nextId)
    ensures forall id :: id in ir.ops ==> r.ops[id] == ir.ops[id]
    ensures forall b :: b in ir.layout && b != bb ==> r.layout[b] == ir.layout[b]
    ensures r.ops[ir.nextId] == Node(bb, Phi([]))
    ensures r.layout[bb] == InsertAt(ir.layout[bb], FirstNonPhi(ir, ir.layout[bb]), ir.nextId)
  {
    WithInsertedFacts(ir, bb, FirstNonPhi(ir, ir.layout[bb]), Phi([]));
    WithInserted(ir, bb, FirstNonPhi(ir, ir.layout[bb]), Phi([]))
  }

  /** Lines 98-106: the preheader entry of the phi. An instruction pointer
      operand is used as it is; any other pointer goes through a zero-index
      getelementptr built before the preheader's terminator, which the
      builder folds back into the pointer itself when that is a constant, so
      only an argument gets a new instruction. */
  function SeedPhi(ir: IR, phi: InstrId, ptr: Value, elemSize: int, pre: BlockId): (r: IR)
    requires WellFormed(ir) && IsPhi(ir, phi) && pre in ir.layout && ValueBelow(ptr, ir.nextId)
    requires !ptr.Instr? ==> |ir.layout[pre]| > 0
    ensures WellFormed(r) && r.layout.Keys == ir.layout.Keys && IsPhi(r, phi)
    ensures r.nextId == if ptr.Argument? then ir.nextId + 1 else ir.nextId
    ensures r.ops.Keys == if ptr.Argument? then ir.ops.Keys + {ir.nextId} else ir.ops.Keys
    ensures forall id :: id in ir.ops && id != phi ==> r.ops[id] == ir.ops[id]
    ensures r.ops[phi].parent == ir.ops[phi].parent
    ensures forall b :: b in ir.layout && b != pre ==> r.layout[b] == ir.layout[b]
    ensures r.ops[phi].op.incoming == ir.ops[phi].op.incoming + [Incoming(SeedValue(ir, ptr), pre)]
    ensures ptr.Argument? ==> r.ops[ir.nextId] == Node(pre, Gep(ptr, ConstInt(0), elemSize))
    ensures r.layout[pre] ==
              if ptr.Argument? then InsertAt(ir.layout[pre], |ir.layout[pre]| - 1, ir.nextId) else ir.layout[pre]
  {
    if ptr.Instr? then
      WithIncomingFacts(ir, phi, ptr, pre);
      WithIncoming(ir, phi, ptr, pre)
    else
      SeedFromInitGep(ir, phi, ptr, elemSize, pre)
  }

  /** Lines 101-105: the zero-index getelementptr built before the
      preheader's terminator (folded away for a constant pointer), and the
      phi's entry from the preheader reading its value. */
  function SeedFromInitGep(ir: IR, phi: InstrId, ptr: Value, elemSize: int, pre: BlockId): (r: IR)
    requires WellFormed(ir) && IsPhi(ir, phi) && pre in ir.layout && ValueBelow(ptr, ir.nextId)
    requires !ptr.Instr? && |ir.layout[pre]| > 0
    ensures WellFormed(r) && r.layout.Keys == ir.layout.Keys && IsPhi(r, phi)
    ensures r.nextId == if ptr.Argument? then ir.nextId + 1 else ir.nextId
    ensures r.ops.Keys == if ptr.Argument? then ir.ops.Keys + {ir.nextId} else ir.ops.Keys
    ensures forall id :: id in ir.ops && id != phi ==> r.ops[id] == ir.ops[id]
    ensures r.ops[phi].parent == ir.ops[phi].parent
    ensures forall b :: b in ir.layout && b != pre ==> r.layout[b] == ir.layout[b]
    ensures r.ops[phi].op.incoming == ir.ops[phi].op.incoming + [Incoming(SeedValue(ir, ptr), pre)]
    ensures ptr.Argument? ==> r.ops[ir.nextId] == Node(pre, Gep(ptr, ConstInt(0), elemSize))
    ensures r.layout[pre] ==
              if ptr.Argument? then InsertAt(ir.layout[pre], |ir.layout[pre]| - 1, ir.nextId) else ir.layout[pre]
  {
    var pos := |ir.layout[pre]| - 1;
    var withInit := WithGepBuilt(ir, pre, pos, ptr, ConstInt(0), elemSize);
    var init := GepBuilt(ir, ptr, ConstInt(0));
    assert WellFormed(withInit) && IsPhi(withInit, phi) && ValueBelow(init, withInit.nextId) by {
      if !GepFolds(ptr, ConstInt(0)) {
        WithInsertedFacts(ir, pre, pos, Gep(ptr, ConstInt(0), elemSize));
      }
    }
    WithIncomingFacts(withInit, phi, init, pre);
    WithIncoming(withInit, phi, init, pre)
  }

  /** Lines 109-110: every use of the getelementptr now reads the phi, and the
      getelementptr is erased. */
  function Rewire(ir: IR, gep: InstrId, phi: InstrId): (r: IR)
    requires WellFormed(ir) && gep in ir.ops && phi in ir.ops && phi != gep
    ensures WellFormed(r) && r.layout.Keys == ir.layout.Keys && r.nextId == ir.nextId
    ensures r.ops.Keys == ir.ops.Keys - {gep}
    ensures forall id :: id in r.ops ==>
              r.ops[id] == Node(ir.ops[id].parent, ReplaceUse(ir.ops[id].op, gep, Instr(phi)))
    ensures forall b :: b in ir.layout && b != ir.ops[gep].parent ==> r.layout[b] == ir.layout[b]
    ensures forall id :: id in r.ops ==> !Uses(r.ops[id].op, gep)
    ensures ir.ops[gep].parent in ir.layout && gep in ir.layout[ir.ops[gep].parent]
    ensures var s := ir.layout[ir.ops[gep].parent];
      r.layout[ir.ops[gep].parent] == RemoveAt(s, IndexOf(s, gep))
  {
    var replaced := WithUsesReplaced(ir, gep, Instr(phi));
    WithUsesReplacedFacts(ir, gep, Instr(phi));
    WithErasedFacts(replaced, gep);
    WithErased(replaced, gep)
  }

  /** Lines 114-119: a getelementptr advancing the phi by one pointer-sized
      element, placed just before `mi`, becomes the phi's entry from `bb`. */
  function Advance(ir: IR, phi: InstrId, mi: InstrId, bb: BlockId): (r: IR)
    requires WellFormed(ir) && IsPhi(ir, phi) && mi in ir.ops && ir.ops[mi].parent == bb
    ensures WellFormed(r) && r.nextId == ir.nextId + 1 && r.layout.Keys == ir.layout.Keys
    ensures r.ops.Keys == ir.ops.Keys + {ir.nextId}
    ensures r.ops[ir.nextId] == Node(bb, Gep(Instr(phi), ConstInt(1), PointerSize))
    ensures r.ops[phi] == Node(ir.ops[phi].parent, Phi(ir.ops[phi].op.incoming + [Incoming(Instr(ir.nextId), bb)]))
    ensures forall id :: id in ir.ops && id != phi ==> r.ops[id] == ir.ops[id]
    ensures mi in ir.layout[bb]
    ensures r.layout[bb] == InsertAt(ir.layout[bb], IndexOf(ir.layout[bb], mi), ir.nextId)
    ensures forall b :: b in ir.layout && b != bb ==> r.layout[b] == ir.layout[b]
  {
    var inc := Gep(Instr(phi), ConstInt(1), PointerSize);
    var pos := IndexOf(ir.layout[bb], mi);
    WithInsertedFacts(ir, bb, pos, inc);
    var withInc := WithInserted(ir, bb, pos, inc);
    WithIncomingFacts(withInc, phi, Instr(ir.nextId), bb);
    WithIncoming(withInc, phi, Instr(ir.nextId), bb)
  }

  /** Lines 95-106: the phi, placed and given its preheader entry. */
  function Prepare(ir: IR, gep: InstrId, bb: BlockId, pre: BlockId): (r: IR)
    requires WellFormed(ir) && gep in ir.ops && ir.ops[gep].op.Gep? && bb in ir.layout
    requires pre in ir.layout && pre != bb
    requires !ir.ops[gep].op.ptr.Instr? ==> |ir.layout[pre]| > 0
    ensures WellFormed(r) && r.layout.Keys == ir.layout.Keys && IsPhi(r, PhiId(ir))
    ensures r.ops.Keys >= ir.ops.Keys && r.nextId > ir.nextId
    ensures forall id :: id in ir.ops ==> r.ops[id] == ir.ops[id]
    ensures r.ops[PhiId(ir)].parent == bb
  {
    var g := ir.ops[gep].op;
    assert ValueBelow(g.ptr, ir.nextId) by { assert g.ptr in Operands(g); }
    var placed := PlacePhi(ir, bb);
    SeedPhi(placed, PhiId(ir), g.ptr, g.elemSize, pre)
  }

  /** Lines 109-119, applied to the body `Prepare` left: the phi `phi` is in
      block `bb`, and `mi` is a load or store of `bb`. */
  function Finish(ir: IR, gep: InstrId, phi: InstrId, mi: InstrId, bb: BlockId): (r: IR)
    requires WellFormed(ir) && gep in ir.ops && IsPhi(ir, phi) && phi != gep
    requires mi in ir.ops && mi != gep && ir.ops[mi].parent == bb
    ensures WellFormed(r)
  {
    var rewired := Rewire(ir, gep, phi);
    assert IsPhi(rewired, phi) by {
      assert ir.ops[phi].op.Phi?;
    }
    Advance(rewired, phi, mi, bb)
  }

  /** The whole rewrite of one accepted load or store. */
  function Rewrite(ir: IR, gep: InstrId, mi: InstrId, bb: BlockId, pre: BlockId): (r: IR)
    requires RewritePre(ir, gep, mi, bb, pre)
    ensures WellFormed(r)
  {
    assert gep < PhiId(ir) && mi != gep;
    Finish(Prepare(ir, gep, bb, pre), gep, PhiId(ir), mi, bb)
  }

  // ---------------------------------------------------------------------
  // What each half of the rewrite leaves behind

  /** The instructions the first half adds: the phi, seeded from the
      preheader, and the zero-index getelementptr when one is needed. */
  lemma PrepareAdds(ir: IR, gep: InstrId, bb: BlockId, pre: BlockId)
    requires WellFormed(ir) && gep in ir.ops && ir.ops[gep].op.Gep? && bb in ir.layout
    requires pre in ir.layout && pre != bb
    requires !ir.ops[gep].op.ptr.Instr? ==> |ir.layout[pre]| > 0
    ensures Prepare(ir, gep, bb, pre).ops[PhiId(ir)] ==
              Node(bb, Phi([Incoming(if NeedsInitGep(ir, gep) then Instr(InitGepId(ir)) else ir.ops[gep].op.ptr, pre)]))
    ensures NeedsInitGep(ir, gep) ==>
              && InitGepId(ir) in Prepare(ir, gep, bb, pre).ops
              && Prepare(ir, gep, bb, pre).ops[InitGepId(ir)] ==
                   Node(pre, Gep(ir.ops[gep].op.ptr, ConstInt(0), ir.ops[gep].op.elemSize))
    ensures Prepare(ir, gep, bb, pre).ops.Keys ==
              ir.ops.Keys + (if NeedsInitGep(ir, gep) then {PhiId(ir), InitGepId(ir)} else {PhiId(ir)})
    ensures Prepare(ir, gep, bb, pre).nextId == IncId(ir, gep)
  {
    var g := ir.ops[gep].op;
    assert ValueBelow(g.ptr, ir.nextId) by { assert g.ptr in Operands(g); }
    var placed := PlacePhi(ir, bb);
    var r := SeedPhi(placed, PhiId(ir), g.ptr, g.elemSize, pre);
    assert Prepare(ir, gep, bb, pre) == r;
    var seed := SeedValue(placed, g.ptr);
    assert placed.ops[PhiId(ir)].op.incoming == [];
    assert placed.nextId == InitGepId(ir);
    assert r.ops[PhiId(ir)].op.incoming == placed.ops[PhiId(ir)].op.incoming + [Incoming(seed, pre)];
    assert r.ops[PhiId(ir)].op.incoming == [Incoming(seed, pre)];
    assert r.ops[PhiId(ir)].parent == bb;
    assert r.ops[PhiId(ir)].op.Phi?;
  }

  /** Where the first half places what it adds: the phi at the first non-phi
      position of `bb`, the zero-index getelementptr just before the
      preheader's terminator; no other block changes. */
  lemma PrepareLayout(ir: IR, gep: InstrId, bb: BlockId, pre: BlockId)
    requires WellFormed(ir) && gep in ir.ops && ir.ops[gep].op.Gep? && bb in ir.layout
    requires pre in ir.layout && pre != bb
    requires !ir.ops[gep].op.ptr.Instr? ==> |ir.layout[pre]| > 0
    ensures Prepare(ir, gep, bb, pre).layout[bb] == InsertAt(ir.layout[bb], FirstNonPhi(ir, ir.layout[bb]), PhiId(ir))
    ensures Prepare(ir, gep, bb, pre).layout[pre] ==
              if NeedsInitGep(ir, gep) then InsertAt(ir.layout[pre], |ir.layout[pre]| - 1, InitGepId(ir))
              else ir.layout[pre]
    ensures forall b :: b in ir.layout && b != bb && b != pre ==> Prepare(ir, gep, bb, pre).layout[b] == ir.layout[b]
  {
    var g := ir.ops[gep].op;
    assert ValueBelow(g.ptr, ir.nextId) by { assert g.ptr in Operands(g); }
    var placed := PlacePhi(ir, bb);
    var r := SeedPhi(placed, PhiId(ir), g.ptr, g.elemSize, pre);
    assert Prepare(ir, gep, bb, pre) == r;
    assert placed.layout[pre] == ir.layout[pre];
    assert r.layout[bb] == placed.layout[bb];
    assert r.layout[pre] == if g.ptr.Argument? then InsertAt(placed.layout[pre], |placed.layout[pre]| - 1, placed.nextId)
                            else placed.layout[pre];
    assert placed.nextId == InitGepId(ir);
    if NeedsInitGep(ir, gep) {
      assert r.layout[pre] == InsertAt(ir.layout[pre], |ir.layout[pre]| - 1, InitGepId(ir));
    } else {
      assert r.layout[pre] == ir.layout[pre];
    }
  }
}
