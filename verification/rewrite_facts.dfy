/**
 * What `RewriteToFavorIndexedLdST` guarantees about the body it edits: the
 * getelementptr is gone and its users read the phi, the phi heads the block
 * and is seeded from the preheader and advanced by one pointer-sized element
 * just before the memory instruction, and nothing else moves.
 */
module RewriteFacts {
  import opened Llvm
  import opened Rewriter

  // ---------------------------------------------------------------------
  // The second half (lines 109-119) on its own

  /** The instructions the second half leaves: every user of `gep` reads the
      phi instead, `gep` is gone, and the increment is new. */
  lemma FinishOps(p: IR, gep: InstrId, phi: InstrId, mi: InstrId, bb: BlockId)
    requires WellFormed(p) && gep in p.ops && IsPhi(p, phi) && phi != gep
    requires mi in p.ops && mi != gep && p.ops[mi].parent == bb
    ensures Finish(p, gep, phi, mi, bb).ops.Keys == (p.ops.Keys - {gep}) + {p.nextId}
    ensures Finish(p, gep, phi, mi, bb).nextId == p.nextId + 1
    ensures Finish(p, gep, phi, mi, bb).ops[p.nextId] == Node(bb, Gep(Instr(phi), ConstInt(1), PointerSize))
    ensures Finish(p, gep, phi, mi, bb).ops[phi] ==
              Node(p.ops[phi].parent,
                   Phi(ReplaceUse(p.ops[phi].op, gep, Instr(phi)).incoming + [Incoming(Instr(p.nextId), bb)]))
  {
    var rewired := Rewire(p, gep, phi);
    assert IsPhi(rewired, phi) by { assert p.ops[phi].op.Phi?; }
    assert Finish(p, gep, phi, mi, bb) == Advance(rewired, phi, mi, bb);
  }

  /** Every other instruction keeps its block and reads the phi for `gep`. */
  lemma FinishRedirects(p: IR, gep: InstrId, phi: InstrId, mi: InstrId, bb: BlockId)
    requires WellFormed(p) && gep in p.ops && IsPhi(p, phi) && phi != gep
    requires mi in p.ops && mi != gep && p.ops[mi].parent == bb
    ensures forall id :: id in p.ops && id != gep && id != phi ==>
              Finish(p, gep, phi, mi, bb).ops[id] == Node(p.ops[id].parent, ReplaceUse(p.ops[id].op, gep, Instr(phi)))
  {
    var rewired := Rewire(p, gep, phi);
    assert IsPhi(rewired, phi) by { assert p.ops[phi].op.Phi?; }
    var r := Advance(rewired, phi, mi, bb);
    assert Finish(p, gep, phi, mi, bb) == r;
    forall id | id in p.ops && id != gep && id != phi
      ensures r.ops[id] == Node(p.ops[id].parent, ReplaceUse(p.ops[id].op, gep, Instr(phi)))
    {
      assert id in rewired.ops;
      assert r.ops[id] == rewired.ops[id];
    }
  }

  /** The increment reads only the phi, so an instruction nobody read before
      is still unread afterwards. */
  lemma AdvanceKeepsUnused(ir: IR, phi: InstrId, mi: InstrId, bb: BlockId, x: InstrId)
    requires WellFormed(ir) && IsPhi(ir, phi) && mi in ir.ops && ir.ops[mi].parent == bb
    requires x != phi && x != ir.nextId && forall id :: id in ir.ops ==> !Uses(ir.ops[id].op, x)
    ensures forall id :: id in Advance(ir, phi, mi, bb).ops ==> !Uses(Advance(ir, phi, mi, bb).ops[id].op, x)
  {
    var r := Advance(ir, phi, mi, bb);
    forall id | id in r.ops ensures !Uses(r.ops[id].op, x) {
      if id == ir.nextId {
        assert Operands(r.ops[id].op) == [Instr(phi), ConstInt(1)];
      } else if id == phi {
        OperandsOfAppendedPhi(ir.ops[phi].op.incoming, Incoming(Instr(ir.nextId), bb));
        assert ir.ops[phi].op == Phi(ir.ops[phi].op.incoming);
        assert !Uses(ir.ops[phi].op, x);
      }
    }
  }

  /** After the second half no instruction reads `gep`, which is gone. */
  lemma FinishDropsGep(p: IR, gep: InstrId, phi: InstrId, mi: InstrId, bb: BlockId)
    requires WellFormed(p) && gep in p.ops && IsPhi(p, phi) && phi != gep
    requires mi in p.ops && mi != gep && p.ops[mi].parent == bb
    ensures gep !in Finish(p, gep, phi, mi, bb).ops
    ensures forall id :: id in Finish(p, gep, phi, mi, bb).ops ==> !Uses(Finish(p, gep, phi, mi, bb).ops[id].op, gep)
  {
    var rewired := Rewire(p, gep, phi);
    assert IsPhi(rewired, phi) by { assert p.ops[phi].op.Phi?; }
    assert Finish(p, gep, phi, mi, bb) == Advance(rewired, phi, mi, bb);
    AdvanceKeepsUnused(rewired, phi, mi, bb, gep);
  }

  /** Apart from `gep` and the increment, the blocks keep their instructions
      in their order. */
  lemma FinishFrame(p: IR, gep: InstrId, phi: InstrId, mi: InstrId, bb: BlockId, skip: set<InstrId>, b: BlockId)
    requires WellFormed(p) && gep in p.ops && IsPhi(p, phi) && phi != gep
    requires mi in p.ops && mi != gep && p.ops[mi].parent == bb
    requires gep in skip && p.nextId in skip && b in p.layout
    ensures b in Finish(p, gep, phi, mi, bb).layout
    ensures Without(Finish(p, gep, phi, mi, bb).layout[b], skip) == Without(p.layout[b], skip)
  {
    var rewired := Rewire(p, gep, phi);
    assert IsPhi(rewired, phi) by { assert p.ops[phi].op.Phi?; }
    var r := Advance(rewired, phi, mi, bb);
    assert Finish(p, gep, phi, mi, bb) == r;
    EditFrame(p.layout[b], rewired.layout[b], r.layout[b], gep, mi, p.nextId, skip);
  }

  /** Proof helper: `u` is `s`, possibly without `gep`, and `t` is `u`,
      possibly with `x` inserted before `y`; neither edit shows once the
      skipped ids are taken out. */
  lemma EditFrame(s: seq<InstrId>, u: seq<InstrId>, t: seq<InstrId>, gep: InstrId, y: InstrId, x: InstrId, skip: set<InstrId>)
    requires gep in skip && x in skip
    requires u == s || (gep in s && u == RemoveAt(s, IndexOf(s, gep)))
    requires t == u || (y in u && t == InsertAt(u, IndexOf(u, y), x))
    ensures Without(t, skip) == Without(s, skip)
  {
    if u != s {
      WithoutRemoveAt(s, IndexOf(s, gep), skip);
    }
    if t != u {
      WithoutInsertAt(u, IndexOf(u, y), x, skip);
    }
  }

  /** The second half inserts after `lead`, a run of phis at the head of `bb`
      (the phi among them), and puts the increment immediately before `mi`. */
  lemma FinishPositions(p: IR, gep: InstrId, phi: InstrId, mi: InstrId, bb: BlockId, lead: seq<InstrId>)
    requires WellFormed(p) && gep in p.ops && IsPhi(p, phi) && phi != gep
    requires mi in p.ops && mi != gep && p.ops[mi].parent == bb
    requires p.ops[gep].op.Gep? && IsMemOp(p.ops[mi].op)
    requires bb in p.layout && lead <= p.layout[bb] && forall x :: x in lead ==> IsPhi(p, x)
    ensures bb in Finish(p, gep, phi, mi, bb).layout
    ensures lead <= Finish(p, gep, phi, mi, bb).layout[bb]
    ensures var t := Finish(p, gep, phi, mi, bb).layout[bb];
      exists j :: 0 <= j < |t| - 1 && t[j] == p.nextId && t[j + 1] == mi
  {
    var rewired := Rewire(p, gep, phi);
    assert IsPhi(rewired, phi) by { assert p.ops[phi].op.Phi?; }
    var r := Advance(rewired, phi, mi, bb);
    assert Finish(p, gep, phi, mi, bb) == r;
    if bb == p.ops[gep].parent {
      assert gep !in lead;
      RemovalKeepsPrefix(p.layout[bb], lead, gep);
    }
    assert mi !in lead;
    InsertBeforeAfterPrefix(rewired.layout[bb], lead, mi, rewired.nextId);
  }

  /** Proof helper: removing an element that is not in a prefix keeps it. */
  lemma RemovalKeepsPrefix(s: seq<InstrId>, lead: seq<InstrId>, x: InstrId)
    requires lead <= s && x in s && x !in lead
    ensures lead <= RemoveAt(s, IndexOf(s, x))
  {
    IndexAfterPrefix(s, lead, x);
    PrefixRemoveAt(s, IndexOf(s, x), lead);
  }

  /** Proof helper: inserting `x` just before an element `y` that is not in
      a prefix keeps the prefix and puts `x` right before `y`. */
  lemma InsertBeforeAfterPrefix(u: seq<InstrId>, lead: seq<InstrId>, y: InstrId, x: InstrId)
    requires lead <= u && y in u && y !in lead
    ensures lead <= InsertAt(u, IndexOf(u, y), x)
    ensures var t := InsertAt(u, IndexOf(u, y), x);
      exists j :: 0 <= j < |t| - 1 && t[j] == x && t[j + 1] == y
  {
    IndexAfterPrefix(u, lead, y);
    var k := IndexOf(u, y);
    PrefixInsertAt(u, k, x, lead);
    InsertAtFacts(u, k, x);
    assert InsertAt(u, k, x)[k] == x && InsertAt(u, k, x)[k + 1] == y;
  }

  /** Erasing `gep` leaves the last two instructions of every block last. */
  lemma RewireKeepsTail(p: IR, gep: InstrId, phi: InstrId, b: BlockId, z: InstrId, last: InstrId)
    requires WellFormed(p) && gep in p.ops && phi in p.ops && phi != gep
    requires b in p.layout && z != gep && last != gep && EndsWith2(p.layout[b], z, last)
    ensures EndsWith2(Rewire(p, gep, phi).layout[b], z, last)
  {
    if b == p.ops[gep].parent {
      EndsWith2RemoveAt(p.layout[b], IndexOf(p.layout[b], gep), z, last);
    }
  }

  /** The second half leaves the last two instructions of another block in
      place: the zero-index getelementptr stays just before the terminator. */
  lemma FinishKeepsTail(p: IR, gep: InstrId, phi: InstrId, mi: InstrId, bb: BlockId, b: BlockId, z: InstrId, last: InstrId)
    requires WellFormed(p) && gep in p.ops && IsPhi(p, phi) && phi != gep
    requires mi in p.ops && mi != gep && p.ops[mi].parent == bb
    requires b in p.layout && b != bb && z != gep && last != gep && EndsWith2(p.layout[b], z, last)
    ensures b in Finish(p, gep, phi, mi, bb).layout
    ensures EndsWith2(Finish(p, gep, phi, mi, bb).layout[b], z, last)
  {
    var rewired := Rewire(p, gep, phi);
    assert IsPhi(rewired, phi) by { assert p.ops[phi].op.Phi?; }
    assert Finish(p, gep, phi, mi, bb) == Advance(rewired, phi, mi, bb);
    RewireKeepsTail(p, gep, phi, b, z, last);
  }

  // ---------------------------------------------------------------------
  // The first half (lines 95-106) on its own

  /** Proof helper: layout `t` is `s` with `x0` inserted at position `i` of
      block `bb` and, when `needs`, `y` inserted before the last instruction
      of block `pre`. */
  ghost predicate TwoInsertions(s: map<BlockId, seq<InstrId>>, t: map<BlockId, seq<InstrId>>, bb: BlockId, i: nat,
                                x0: InstrId, pre: BlockId, needs: bool, y: InstrId)
  {
    && bb in s && pre in s && s.Keys == t.Keys && bb != pre
    && i <= |s[bb]| && t[bb] == InsertAt(s[bb], i, x0)
    && (needs ==> |s[pre]| > 0)
    && t[pre] == (if needs then InsertAt(s[pre], |s[pre]| - 1, y) else s[pre])
    && forall c :: c in s && c != bb && c != pre ==> t[c] == s[c]
  }

  /** Proof helper: `PrepareLayout` in the form of `TwoInsertions`. */
  lemma PrepareEdits(ir: IR, gep: InstrId, bb: BlockId, pre: BlockId)
    requires WellFormed(ir) && gep in ir.ops && ir.ops[gep].op.Gep? && bb in ir.layout
    requires pre in ir.layout && pre != bb
    requires !ir.ops[gep].op.ptr.Instr? ==> |ir.layout[pre]| > 0
    ensures TwoInsertions(ir.layout, Prepare(ir, gep, bb, pre).layout, bb, FirstNonPhi(ir, ir.layout[bb]), PhiId(ir),
                          pre, NeedsInitGep(ir, gep), InitGepId(ir))
  {
    PrepareLayout(ir, gep, bb, pre);
  }

  /** Apart from the phi and the zero-index getelementptr, the blocks keep
      their instructions in their order. */
  lemma PrepareFrame(ir: IR, gep: InstrId, bb: BlockId, pre: BlockId, skip: set<InstrId>, b: BlockId)
    requires WellFormed(ir) && gep in ir.ops && ir.ops[gep].op.Gep? && bb in ir.layout
    requires pre in ir.layout && pre != bb
    requires !ir.ops[gep].op.ptr.Instr? ==> |ir.layout[pre]| > 0
    requires PhiId(ir) in skip && (NeedsInitGep(ir, gep) ==> InitGepId(ir) in skip) && b in ir.layout
    ensures Without(Prepare(ir, gep, bb, pre).layout[b], skip) == Without(ir.layout[b], skip)
  {
    PrepareEdits(ir, gep, bb, pre);
    InsertionsFrame(ir.layout, Prepare(ir, gep, bb, pre).layout, bb, FirstNonPhi(ir, ir.layout[bb]), PhiId(ir),
                    pre, NeedsInitGep(ir, gep), InitGepId(ir), skip, b);
  }

  /** Proof helper: inserting `x` into block `bb` and, when `needs`, `y`
      before the last instruction of block `pre` changes no block once the
      skipped ids are taken out. */
  lemma InsertionsFrame(s: map<BlockId, seq<InstrId>>, t: map<BlockId, seq<InstrId>>, bb: BlockId, i: nat, x: InstrId,
                        pre: BlockId, needs: bool, y: InstrId, skip: set<InstrId>, b: BlockId)
    requires TwoInsertions(s, t, bb, i, x, pre, needs, y) && b in s
    requires x in skip && (needs ==> y in skip)
    ensures Without(t[b], skip) == Without(s[b], skip)
  {
    if b == bb {
      WithoutInsertAt(s[bb], i, x, skip);
    } else if b == pre && needs {
      WithoutInsertAt(s[pre], |s[pre]| - 1, y, skip);
    }
  }

  /** Before the phi, `bb` holds exactly the phis it held before. */
  lemma PrepareLeadingPhis(ir: IR, gep: InstrId, bb: BlockId, pre: BlockId)
    requires WellFormed(ir) && gep in ir.ops && ir.ops[gep].op.Gep? && bb in ir.layout
    requires pre in ir.layout && pre != bb
    requires !ir.ops[gep].op.ptr.Instr? ==> |ir.layout[pre]| > 0
    ensures var lead := ir.layout[bb][..FirstNonPhi(ir, ir.layout[bb])] + [PhiId(ir)];
      && lead <= Prepare(ir, gep, bb, pre).layout[bb]
      && forall x :: x in lead ==> IsPhi(Prepare(ir, gep, bb, pre), x)
  {
    PrepareLeadingPrefix(ir, gep, bb, pre);
    PhisStayPhis(ir, Prepare(ir, gep, bb, pre), ir.layout[bb], FirstNonPhi(ir, ir.layout[bb]), PhiId(ir));
  }

  lemma PrepareLeadingPrefix(ir: IR, gep: InstrId, bb: BlockId, pre: BlockId)
    requires WellFormed(ir) && gep in ir.ops && ir.ops[gep].op.Gep? && bb in ir.layout
    requires pre in ir.layout && pre != bb
    requires !ir.ops[gep].op.ptr.Instr? ==> |ir.layout[pre]| > 0
    ensures ir.layout[bb][..FirstNonPhi(ir, ir.layout[bb])] + [PhiId(ir)] <= Prepare(ir, gep, bb, pre).layout[bb]
  {
    PrepareLayout(ir, gep, bb, pre);
    InsertedAfterPrefix(ir.layout[bb], FirstNonPhi(ir, ir.layout[bb]), PhiId(ir));
  }

  /** The leading phis of `s` in `ir`, kept unchanged by `p`, followed by a
      phi of `p`, are all phis of `p`. */
  lemma PhisStayPhis(ir: IR, p: IR, s: seq<InstrId>, n: nat, phi: InstrId)
    requires n <= |s|
    requires forall id :: id in ir.ops ==> id in p.ops && p.ops[id] == ir.ops[id]
    requires forall i :: 0 <= i < n ==> IsPhi(ir, s[i])
    requires IsPhi(p, phi)
    ensures forall x :: x in s[..n] + [phi] ==> IsPhi(p, x)
  {
    forall x | x in s[..n] + [phi] ensures IsPhi(p, x) {
      if x != phi {
        var i :| 0 <= i < n && s[i] == x;
      }
    }
  }

  // ---------------------------------------------------------------------
  // The whole rewrite

  /** The first half leaves what the second half needs. */
  lemma PreparedForFinish(ir: IR, gep: InstrId, mi: InstrId, bb: BlockId, pre: BlockId)
    requires RewritePre(ir, gep, mi, bb, pre)
    ensures var p := Prepare(ir, gep, bb, pre);
      && WellFormed(p) && gep in p.ops && IsPhi(p, PhiId(ir)) && PhiId(ir) != gep
      && mi in p.ops && mi != gep && p.ops[mi].parent == bb
      && p.ops[gep] == ir.ops[gep] && p.ops[mi] == ir.ops[mi] && bb in p.layout
    ensures Rewrite(ir, gep, mi, bb, pre) == Finish(Prepare(ir, gep, bb, pre), gep, PhiId(ir), mi, bb)
  {
    assert gep < PhiId(ir) && mi != gep;
  }

  /** Lines 109-110: the getelementptr is erased and nothing reads it any more. */
  lemma RewriteErasesGep(ir: IR, gep: InstrId, mi: InstrId, bb: BlockId, pre: BlockId)
    requires RewritePre(ir, gep, mi, bb, pre)
    ensures gep !in Rewrite(ir, gep, mi, bb, pre).ops
    ensures forall id :: id in Rewrite(ir, gep, mi, bb, pre).ops ==> !Uses(Rewrite(ir, gep, mi, bb, pre).ops[id].op, gep)
    ensures forall b :: b in Rewrite(ir, gep, mi, bb, pre).layout ==> gep !in Rewrite(ir, gep, mi, bb, pre).layout[b]
  {
    PreparedForFinish(ir, gep, mi, bb, pre);
    var p := Prepare(ir, gep, bb, pre);
    FinishDropsGep(p, gep, PhiId(ir), mi, bb);
    var r := Rewrite(ir, gep, mi, bb, pre);
    forall b | b in r.layout ensures gep !in r.layout[b] {
      if gep in r.layout[b] {
        InBlockMeansParent(r, b, gep);
      }
    }
  }

  /** Line 109: every other instruction of the body survives in its block,
      reading the phi wherever it read the getelementptr. */
  lemma RewriteRedirectsUses(ir: IR, gep: InstrId, mi: InstrId, bb: BlockId, pre: BlockId)
    requires RewritePre(ir, gep, mi, bb, pre)
    ensures forall id :: id in ir.ops && id != gep ==>
              && id in Rewrite(ir, gep, mi, bb, pre).ops
              && Rewrite(ir, gep, mi, bb, pre).ops[id] ==
                   Node(ir.ops[id].parent, ReplaceUse(ir.ops[id].op, gep, Instr(PhiId(ir))))
  {
    PreparedForFinish(ir, gep, mi, bb, pre);
    var p := Prepare(ir, gep, bb, pre);
    FinishOps(p, gep, PhiId(ir), mi, bb);
    FinishRedirects(p, gep, PhiId(ir), mi, bb);
    forall id | id in ir.ops && id != gep
      ensures id in Rewrite(ir, gep, mi, bb, pre).ops
    {
      assert id in p.ops && id < PhiId(ir);
    }
  }

  /** The new ids are the phi's, the zero-index getelementptr's when there is
      one, and the increment's; none of them is an existing id. */
  lemma NewIdsSplit(ir: IR, gep: InstrId)
    requires WellFormed(ir) && gep in ir.ops && ir.ops[gep].op.Gep?
    ensures NewIds(ir, gep) ==
              (if NeedsInitGep(ir, gep) then {PhiId(ir), InitGepId(ir)} else {PhiId(ir)}) + {IncId(ir, gep)}
    ensures gep !in (if NeedsInitGep(ir, gep) then {PhiId(ir), InitGepId(ir)} else {PhiId(ir)})
    ensures gep != IncId(ir, gep)
    ensures forall id :: id in ir.ops ==> id !in NewIds(ir, gep)
  {
  }

  /** Adding ids other than `g` commutes with removing `g`. */
  lemma SwapRemoval(keys: set<InstrId>, added: set<InstrId>, g: InstrId, x: InstrId)
    requires g !in added && g != x
    ensures ((keys + added) - {g}) + {x} == (keys - {g}) + (added + {x})
  {
  }

  /** The body gains exactly the new ids, loses `gep`, and keeps its blocks. */
  lemma RewriteIds(ir: IR, gep: InstrId, mi: InstrId, bb: BlockId, pre: BlockId)
    requires RewritePre(ir, gep, mi, bb, pre)
    ensures Rewrite(ir, gep, mi, bb, pre).ops.Keys == (ir.ops.Keys - {gep}) + NewIds(ir, gep)
    ensures Rewrite(ir, gep, mi, bb, pre).nextId == IncId(ir, gep) + 1
    ensures Rewrite(ir, gep, mi, bb, pre).layout.Keys == ir.layout.Keys
  {
    PreparedForFinish(ir, gep, mi, bb, pre);
    PrepareAdds(ir, gep, bb, pre);
    var p := Prepare(ir, gep, bb, pre);
    FinishOps(p, gep, PhiId(ir), mi, bb);
    var added := if NeedsInitGep(ir, gep) then {PhiId(ir), InitGepId(ir)} else {PhiId(ir)};
    NewIdsSplit(ir, gep);
    SwapRemoval(ir.ops.Keys, added, gep, IncId(ir, gep));
  }

  /** Proof helper (lets the solver unfold `ReplaceUse` on a one-entry phi):
      redirecting uses in a phi with a single entry. */
  lemma ReplaceUseOfSingleEntry(v: Value, b: BlockId, from: InstrId, to: Value)
    ensures ReplaceUse(Phi([Incoming(v, b)]), from, to) == Phi([Incoming(Subst(v, from, to), b)])
  {
  }

  /** Proof helper: the two-entry phi list written as a concatenation. */
  lemma TwoEntries(a: Incoming, b: Incoming)
    ensures [a] + [b] == [a, b]
  {
  }

  /** Proof helper (unfolds `Seed` where the solver would not): the
      preheader value of the phi, as the first half wrote it and as
      redirecting the uses of `gep` leaves it. */
  lemma SeedAfterRedirect(ir: IR, gep: InstrId)
    requires WellFormed(ir) && gep in ir.ops && ir.ops[gep].op.Gep?
    ensures Seed(ir, gep) ==
              Subst(if NeedsInitGep(ir, gep) then Instr(InitGepId(ir)) else ir.ops[gep].op.ptr, gep, Instr(PhiId(ir)))
  {
  }

  /** Lines 95-106 and 119: the phi heads block `bb` and has two entries, the
      pointer (or the zero-index getelementptr) from the preheader and the
      increment from `bb`. */
  lemma RewritePhi(ir: IR, gep: InstrId, mi: InstrId, bb: BlockId, pre: BlockId)
    requires RewritePre(ir, gep, mi, bb, pre)
    ensures PhiId(ir) in Rewrite(ir, gep, mi, bb, pre).ops
    ensures Rewrite(ir, gep, mi, bb, pre).ops[PhiId(ir)] ==
              Node(bb, Phi([Incoming(Seed(ir, gep), pre), Incoming(Instr(IncId(ir, gep)), bb)]))
  {
    PreparedForFinish(ir, gep, mi, bb, pre);
    PrepareAdds(ir, gep, bb, pre);
    var p := Prepare(ir, gep, bb, pre);
    FinishOps(p, gep, PhiId(ir), mi, bb);
    var s0 := if NeedsInitGep(ir, gep) then Instr(InitGepId(ir)) else ir.ops[gep].op.ptr;
    ReplaceUseOfSingleEntry(s0, pre, gep, Instr(PhiId(ir)));
    SeedAfterRedirect(ir, gep);
    assert p.ops[PhiId(ir)].op == Phi([Incoming(s0, pre)]);
    assert ReplaceUse(p.ops[PhiId(ir)].op, gep, Instr(PhiId(ir))).incoming == [Incoming(Seed(ir, gep), pre)];
    assert p.nextId == IncId(ir, gep);
    TwoEntries(Incoming(Seed(ir, gep), pre), Incoming(Instr(IncId(ir, gep)), bb));
  }

  /** Lines 114-119: the increment advances the phi by one pointer-sized
      element, and sits in `bb` immediately before the memory instruction. */
  lemma RewriteIncrement(ir: IR, gep: InstrId, mi: InstrId, bb: BlockId, pre: BlockId)
    requires RewritePre(ir, gep, mi, bb, pre)
    ensures IncId(ir, gep) in Rewrite(ir, gep, mi, bb, pre).ops
    ensures Rewrite(ir, gep, mi, bb, pre).ops[IncId(ir, gep)] ==
              Node(bb, Gep(Instr(PhiId(ir)), ConstInt(1), PointerSize))
    ensures bb in Rewrite(ir, gep, mi, bb, pre).layout
    ensures var t := Rewrite(ir, gep, mi, bb, pre).layout[bb];
      exists j :: 0 <= j < |t| - 1 && t[j] == IncId(ir, gep) && t[j + 1] == mi
  {
    PreparedForFinish(ir, gep, mi, bb, pre);
    PrepareAdds(ir, gep, bb, pre);
    PrepareLeadingPhis(ir, gep, bb, pre);
    var p := Prepare(ir, gep, bb, pre);
    FinishOps(p, gep, PhiId(ir), mi, bb);
    var lead := ir.layout[bb][..FirstNonPhi(ir, ir.layout[bb])] + [PhiId(ir)];
    FinishPositions(p, gep, PhiId(ir), mi, bb, lead);
  }

  /** Lines 95-96: the phi comes right after the phis `bb` already had. */
  lemma RewritePhiFirst(ir: IR, gep: InstrId, mi: InstrId, bb: BlockId, pre: BlockId)
    requires RewritePre(ir, gep, mi, bb, pre)
    ensures bb in Rewrite(ir, gep, mi, bb, pre).layout
    ensures ir.layout[bb][..FirstNonPhi(ir, ir.layout[bb])] + [PhiId(ir)] <= Rewrite(ir, gep, mi, bb, pre).layout[bb]
  {
    PreparedForFinish(ir, gep, mi, bb, pre);
    PrepareLeadingPhis(ir, gep, bb, pre);
    var p := Prepare(ir, gep, bb, pre);
    var lead := ir.layout[bb][..FirstNonPhi(ir, ir.layout[bb])] + [PhiId(ir)];
    FinishPositions(p, gep, PhiId(ir), mi, bb, lead);
  }

  /** A zero-index getelementptr of a non-instruction reads no instruction. */
  lemma ReplaceUseOfInitGep(ptr: Value, elemSize: int, from: InstrId, to: Value)
    requires !ptr.Instr?
    ensures ReplaceUse(Gep(ptr, ConstInt(0), elemSize), from, to) == Gep(ptr, ConstInt(0), elemSize)
  {
  }

  /** Lines 101-105: a pointer argument gets a zero-index getelementptr,
      placed in the preheader just before its terminator. */
  lemma RewriteInitGep(ir: IR, gep: InstrId, mi: InstrId, bb: BlockId, pre: BlockId)
    requires RewritePre(ir, gep, mi, bb, pre) && NeedsInitGep(ir, gep)
    ensures InitGepId(ir) in Rewrite(ir, gep, mi, bb, pre).ops
    ensures Rewrite(ir, gep, mi, bb, pre).ops[InitGepId(ir)] ==
              Node(pre, Gep(ir.ops[gep].op.ptr, ConstInt(0), ir.ops[gep].op.elemSize))
    ensures pre in Rewrite(ir, gep, mi, bb, pre).layout
    ensures EndsWith2(Rewrite(ir, gep, mi, bb, pre).layout[pre], InitGepId(ir), ir.layout[pre][|ir.layout[pre]| - 1])
  {
    PreparedForFinish(ir, gep, mi, bb, pre);
    PrepareAdds(ir, gep, bb, pre);
    PrepareLayout(ir, gep, bb, pre);
    var p := Prepare(ir, gep, bb, pre);
    var z := InitGepId(ir);
    FinishRedirects(p, gep, PhiId(ir), mi, bb);
    assert z in p.ops && z != gep && z != PhiId(ir);
    var g := ir.ops[gep].op;
    ReplaceUseOfInitGep(g.ptr, g.elemSize, gep, Instr(PhiId(ir)));
    var s := ir.layout[pre];
    var last := s[|s| - 1];
    EndsWith2InsertAt(s, z);
    assert last != gep by {
      assert ir.ops[last].op.Terminator?;
    }
    FinishKeepsTail(p, gep, PhiId(ir), mi, bb, pre, z, last);
  }

  /** Apart from the new instructions and the erased getelementptr, every
      block keeps its instructions in their order. */
  lemma RewriteFrame(ir: IR, gep: InstrId, mi: InstrId, bb: BlockId, pre: BlockId, b: BlockId)
    requires RewritePre(ir, gep, mi, bb, pre) && b in ir.layout
    ensures b in Rewrite(ir, gep, mi, bb, pre).layout
    ensures Without(Rewrite(ir, gep, mi, bb, pre).layout[b], NewIds(ir, gep)) == Without(ir.layout[b], {gep})
  {
    PreparedForFinish(ir, gep, mi, bb, pre);
    PrepareAdds(ir, gep, bb, pre);
    NewIdsSplit(ir, gep);
    RewriteErasesGep(ir, gep, mi, bb, pre);
    var p := Prepare(ir, gep, bb, pre);
    var r := Rewrite(ir, gep, mi, bb, pre);
    var skip := NewIds(ir, gep) + {gep};
    PrepareFrame(ir, gep, bb, pre, skip, b);
    FinishFrame(p, gep, PhiId(ir), mi, bb, skip, b);
    WithoutAgrees(r.layout[b], skip, NewIds(ir, gep));
    forall y | y in ir.layout[b] ensures y in skip <==> y in {gep} {
      InBlockMeansParent(ir, b, y);
    }
    WithoutAgrees(ir.layout[b], skip, {gep});
  }

  // ---------------------------------------------------------------------
  // Terminators stay last

  lemma PrepareKeepsLast(ir: IR, gep: InstrId, bb: BlockId, pre: BlockId, b: BlockId, x: InstrId)
    requires WellFormed(ir) && gep in ir.ops && ir.ops[gep].op.Gep? && bb in ir.layout
    requires pre in ir.layout && pre != bb
    requires !ir.ops[gep].op.ptr.Instr? ==> |ir.layout[pre]| > 0
    requires b in ir.layout && EndsWith(ir.layout[b], x) && !IsPhi(ir, x)
    ensures b in Prepare(ir, gep, bb, pre).layout
    ensures EndsWith(Prepare(ir, gep, bb, pre).layout[b], x)
  {
    PrepareEdits(ir, gep, bb, pre);
    assert b == bb ==> FirstNonPhi(ir, ir.layout[bb]) < |ir.layout[bb]|;
    InsertionsKeepLast(ir.layout, Prepare(ir, gep, bb, pre).layout, bb, FirstNonPhi(ir, ir.layout[bb]), PhiId(ir),
                       pre, NeedsInitGep(ir, gep), InitGepId(ir), b, x);
  }

  /** Proof helper: inserting `x0` at `i` of block `bb` and, when `needs`, `y`
      before the last instruction of block `pre` keeps the last instruction
      of block `b`, provided `i` is not past that last instruction. */
  lemma InsertionsKeepLast(s: map<BlockId, seq<InstrId>>, t: map<BlockId, seq<InstrId>>, bb: BlockId, i: nat, x0: InstrId,
                           pre: BlockId, needs: bool, y: InstrId, b: BlockId, x: InstrId)
    requires TwoInsertions(s, t, bb, i, x0, pre, needs, y) && b in s && EndsWith(s[b], x)
    requires b == bb ==> i < |s[bb]|
    ensures EndsWith(t[b], x)
  {
    if b == bb {
      EndsWithInsertAt(s[bb], i, x0, x);
    } else if b == pre && needs {
      EndsWithInsertAt(s[pre], |s[pre]| - 1, y, x);
    }
  }

  lemma RewireKeepsLast(p: IR, gep: InstrId, phi: InstrId, b: BlockId, x: InstrId)
    requires WellFormed(p) && gep in p.ops && phi in p.ops && phi != gep
    requires b in p.layout && x != gep && EndsWith(p.layout[b], x)
    ensures EndsWith(Rewire(p, gep, phi).layout[b], x)
  {
    if b == p.ops[gep].parent {
      EndsWithRemoveAt(p.layout[b], IndexOf(p.layout[b], gep), x);
    }
  }

  lemma FinishKeepsLast(p: IR, gep: InstrId, phi: InstrId, mi: InstrId, bb: BlockId, b: BlockId, x: InstrId)
    requires WellFormed(p) && gep in p.ops && IsPhi(p, phi) && phi != gep
    requires mi in p.ops && mi != gep && p.ops[mi].parent == bb
    requires b in p.layout && x != gep && EndsWith(p.layout[b], x)
    ensures b in Finish(p, gep, phi, mi, bb).layout
    ensures EndsWith(Finish(p, gep, phi, mi, bb).layout[b], x)
  {
    var rewired := Rewire(p, gep, phi);
    assert IsPhi(rewired, phi) by { assert p.ops[phi].op.Phi?; }
    assert Finish(p, gep, phi, mi, bb) == Advance(rewired, phi, mi, bb);
    RewireKeepsLast(p, gep, phi, b, x);
    if b == bb {
      var u := rewired.layout[bb];
      EndsWithInsertAt(u, IndexOf(u, mi), rewired.nextId, x);
    }
  }

  lemma FinishKeepsOp(p: IR, gep: InstrId, phi: InstrId, mi: InstrId, bb: BlockId, x: InstrId)
    requires WellFormed(p) && gep in p.ops && IsPhi(p, phi) && phi != gep
    requires mi in p.ops && mi != gep && p.ops[mi].parent == bb
    requires x in p.ops && x != gep && x != phi
    ensures x in Finish(p, gep, phi, mi, bb).ops
    ensures Finish(p, gep, phi, mi, bb).ops[x].op == ReplaceUse(p.ops[x].op, gep, Instr(phi))
  {
    FinishOps(p, gep, phi, mi, bb);
    FinishRedirects(p, gep, phi, mi, bb);
  }

  lemma ReplaceUseKeepsTerminator(op: Op, from: InstrId, to: Value)
    requires op.Terminator?
    ensures ReplaceUse(op, from, to).Terminator?
  {
  }

  lemma FinishKeepsTerminator(p: IR, gep: InstrId, phi: InstrId, mi: InstrId, bb: BlockId, b: BlockId)
    requires WellFormed(p) && gep in p.ops && IsPhi(p, phi) && phi != gep
    requires mi in p.ops && mi != gep && p.ops[mi].parent == bb
    requires p.ops[gep].op.Gep? && EndsInTerminator(p, b)
    ensures EndsInTerminator(Finish(p, gep, phi, mi, bb), b)
  {
    var s := p.layout[b];
    var x := s[|s| - 1];
    var op := p.ops[x].op;
    assert op.Terminator?;
    FinishKeepsLast(p, gep, phi, mi, bb, b, x);
    FinishKeepsOp(p, gep, phi, mi, bb, x);
    ReplaceUseKeepsTerminator(op, gep, Instr(phi));
  }

  lemma PrepareKeepsTerminator(ir: IR, gep: InstrId, bb: BlockId, pre: BlockId, b: BlockId)
    requires WellFormed(ir) && gep in ir.ops && ir.ops[gep].op.Gep? && bb in ir.layout
    requires pre in ir.layout && pre != bb
    requires !ir.ops[gep].op.ptr.Instr? ==> |ir.layout[pre]| > 0
    requires EndsInTerminator(ir, b)
    ensures EndsInTerminator(Prepare(ir, gep, bb, pre), b)
  {
    var s := ir.layout[b];
    var x := s[|s| - 1];
    var op := ir.ops[x].op;
    assert op.Terminator?;
    PrepareKeepsLast(ir, gep, bb, pre, b, x);
  }

  /** A block closed by a terminator is still closed by it after the rewrite. */
  lemma RewriteKeepsTerminator(ir: IR, gep: InstrId, mi: InstrId, bb: BlockId, pre: BlockId, b: BlockId)
    requires RewritePre(ir, gep, mi, bb, pre) && EndsInTerminator(ir, b)
    ensures EndsInTerminator(Rewrite(ir, gep, mi, bb, pre), b)
  {
    PreparedForFinish(ir, gep, mi, bb, pre);
    PrepareKeepsTerminator(ir, gep, bb, pre, b);
    FinishKeepsTerminator(Prepare(ir, gep, bb, pre), gep, PhiId(ir), mi, bb, b);
  }

  // ---------------------------------------------------------------------
  // Everything a caller of the rewrite relies on, in one place

  /** What the rewrite at `mi` leaves: a well-formed IR with the same blocks,
      the getelementptr `gep` gone, every other instruction in its block with
      `gep` replaced by the new phi, only a phi and getelementptrs added, and
      every block that ended in a terminator still ending in one. */
  ghost predicate RewriteOutcome(ir: IR, gep: InstrId, mi: InstrId, bb: BlockId, pre: BlockId, r: IR)
    requires RewritePre(ir, gep, mi, bb, pre)
  {
    && WellFormed(r)
    && r.ops.Keys == (ir.ops.Keys - {gep}) + NewIds(ir, gep)
    && r.nextId == IncId(ir, gep) + 1
    && r.layout.Keys == ir.layout.Keys
    && (forall id :: id in ir.ops && id != gep ==>
          r.ops[id] == Node(ir.ops[id].parent, ReplaceUse(ir.ops[id].op, gep, Instr(PhiId(ir)))))
    && r.ops[PhiId(ir)].op.Phi?
    && r.ops[IncId(ir, gep)].op.Gep?
    && (NeedsInitGep(ir, gep) ==> r.ops[InitGepId(ir)].op.Gep?)
    && (forall b :: EndsInTerminator(ir, b) ==> EndsInTerminator(r, b))
  }

  lemma RewriteSummary(ir: IR, gep: InstrId, mi: InstrId, bb: BlockId, pre: BlockId)
    requires RewritePre(ir, gep, mi, bb, pre)
    ensures RewriteOutcome(ir, gep, mi, bb, pre, Rewrite(ir, gep, mi, bb, pre))
  {
    RewriteIds(ir, gep, mi, bb, pre);
    RewriteRedirectsUses(ir, gep, mi, bb, pre);
    RewritePhi(ir, gep, mi, bb, pre);
    RewriteIncrement(ir, gep, mi, bb, pre);
    if NeedsInitGep(ir, gep) {
      RewriteInitGep(ir, gep, mi, bb, pre);
    }
    forall b | EndsInTerminator(ir, b)
      ensures EndsInTerminator(Rewrite(ir, gep, mi, bb, pre), b)
    {
      RewriteKeepsTerminator(ir, gep, mi, bb, pre, b);
    }
  }
}
