/**
 * What the rewrite means for the addresses the loop touches, in one run of
 * a loop made of the single block `bb` entered from its preheader `pre`. A
 * getelementptr with a constant index computes `base + index * elemSize`;
 * the phi the rewrite builds starts at the address of the value it receives
 * from the preheader and, on every trip round the back edge, is advanced by
 * its increment getelementptr. Integers are unbounded: the 256-bit
 * wrap-around of SyncVM pointers is not modelled.
 */
module Semantics {
  import opened Llvm
  import opened Classifier
  import opened Rewriter
  import opened RewriteFacts
  import opened Walker

  /** The address `getelementptr base, index` computes over elements of
      `elemSize` bytes. */
  function GepAddress(base: int, index: int, elemSize: int): int {
    base + index * elemSize
  }

  /** The `k`-th value of the add-recurrence `{start,+,stride}`. */
  function AddRecAt(start: int, stride: int, k: nat): int {
    start + stride * k
  }

  /** The run-time value, in the run considered, of every value available
      on entry to the loop: arguments, globals, constant pointers and
      instructions computed before the loop. */
  type Env = Value -> int

  /** `env` agrees with the constant-index getelementptrs of block `pre`:
      each of them holds the address it computes from its pointer operand. */
  ghost predicate PreheaderEnv(ir: IR, pre: BlockId, env: Env) {
    forall id :: id in ir.ops && ir.ops[id].parent == pre && ir.ops[id].op.Gep? && ir.ops[id].op.index.ConstInt? ==>
      env(Instr(id)) == GepAddress(env(ir.ops[id].op.ptr), ir.ops[id].op.index.c, ir.ops[id].op.elemSize)
  }

  /** ScalarEvolution's closed form for `v` is right about the run: `v` has
      a constant-step recurrence and, in iteration `k` of the walked loop,
      holds its `k`-th value `at(k)`. The recurrence is thereby taken to be
      over the walked loop. */
  ghost predicate ClosedFormHolds(se: Oracle, v: Value, at: nat -> int) {
    && se(v).Some? && se(v).value.step.ConstantStep?
    && forall k: nat :: at(k) == AddRecAt(se(v).value.start, se(v).value.step.stride, k)
  }

  /** The value a phi with entries `inc` receives from block `b`: the first
      entry for `b`, if any. */
  function IncomingFrom(inc: seq<Incoming>, b: BlockId): (r: Option<Value>)
    ensures r.Some? <==> exists i :: 0 <= i < |inc| && inc[i].block == b
    ensures r.Some? ==> exists i :: 0 <= i < |inc| && inc[i] == Incoming(r.value, b)
  {
    if |inc| == 0 then None
    else if inc[0].block == b then Some(inc[0].value)
    else
      var r := IncomingFrom(inc[1..], b);
      assert forall i :: 0 < i < |inc| ==> inc[i] == inc[1..][i - 1];
      r
  }

  /** The address phi `phi` holds on entry to the loop: that of its value
      from the preheader `pre`. */
  function EntryAddress(ir: IR, phi: InstrId, pre: BlockId, env: Env): Option<int> {
    if phi !in ir.ops || !ir.ops[phi].op.Phi? then None
    else match IncomingFrom(ir.ops[phi].op.incoming, pre)
      case Some(v) => Some(env(v))
      case None => None
  }

  /** The getelementptr feeding phi `phi` over the back edge from `bb`, when
      it advances the phi itself by a constant number of elements. */
  function BackEdgeStep(ir: IR, phi: InstrId, bb: BlockId): Option<(int, int)> {
    if phi !in ir.ops || !ir.ops[phi].op.Phi? then None
    else match IncomingFrom(ir.ops[phi].op.incoming, bb)
      case Some(Instr(inc)) =>
        if inc in ir.ops && ir.ops[inc].op.Gep? && ir.ops[inc].op.ptr == Instr(phi) && ir.ops[inc].op.index.ConstInt?
        then Some((ir.ops[inc].op.index.c, ir.ops[inc].op.elemSize))
        else None
      case _ => None
  }

  /** The address held by phi `phi` of block `bb` in iteration `k` of the
      loop, read off the IR: its entry address from the preheader `pre`,
      then the previous iteration's address advanced by the back-edge
      getelementptr. None when either is not of that form. */
  function PhiTrace(ir: IR, phi: InstrId, bb: BlockId, pre: BlockId, env: Env, k: nat): Option<int> {
    if k == 0 then EntryAddress(ir, phi, pre, env)
    else
      var prev := PhiTrace(ir, phi, bb, pre, env, k - 1);
      match BackEdgeStep(ir, phi, bb)
      case Some((index, elemSize)) =>
        if prev.Some? then Some(GepAddress(prev.value, index, elemSize)) else None
      case None => None
  }

  /** A phi entered with `seed` from the preheader, whose back-edge value is
      a getelementptr of itself by one pointer-sized element, advances by
      one cell per iteration from the address of `seed`. */
  lemma {:induction false} CellStepTrace(ir: IR, phi: InstrId, inc: InstrId, bb: BlockId, seed: Value, pre: BlockId, env: Env, k: nat)
    requires pre != bb && phi in ir.ops && inc in ir.ops
    requires ir.ops[phi].op == Phi([Incoming(seed, pre), Incoming(Instr(inc), bb)])
    requires ir.ops[inc].op == Gep(Instr(phi), ConstInt(1), PointerSize)
    ensures PhiTrace(ir, phi, bb, pre, env, k) == Some(AddRecAt(env(seed), CellSize, k))
  {
    var entries := ir.ops[phi].op.incoming;
    assert entries[1..] == [Incoming(Instr(inc), bb)];
    assert IncomingFrom(entries, bb) == Some(Instr(inc));
    assert BackEdgeStep(ir, phi, bb) == Some((1, PointerSize));
    if k > 0 {
      CellStepTrace(ir, phi, inc, bb, seed, pre, env, k - 1);
    }
  }

  /** Lines 95-119 as addresses: the new phi enters the loop with the
      preheader value `Seed`, and in iteration `k` holds that value's address
      plus `k` cells. */
  lemma RewriteAdvancesOneCell(ir: IR, gep: InstrId, mi: InstrId, bb: BlockId, pre: BlockId, env: Env, k: nat)
    requires RewritePre(ir, gep, mi, bb, pre)
    ensures var r := Rewrite(ir, gep, mi, bb, pre);
      && PhiId(ir) in r.ops
      && IncomingFrom(r.ops[PhiId(ir)].op.incoming, pre) == Some(Seed(ir, gep))
      && PhiTrace(r, PhiId(ir), bb, pre, env, k) == Some(AddRecAt(env(Seed(ir, gep)), CellSize, k))
  {
    RewritePhi(ir, gep, mi, bb, pre);
    RewriteIncrement(ir, gep, mi, bb, pre);
    var r := Rewrite(ir, gep, mi, bb, pre);
    CellStepTrace(r, PhiId(ir), IncId(ir, gep), bb, Seed(ir, gep), pre, env, k);
  }

  /** Lines 98-106 as addresses: whatever the kind of the pointer operand,
      the phi enters the loop at the operand's own address. An instruction
      is used as it is, a constant is folded back into itself, and an
      argument goes through a getelementptr by zero elements in the
      preheader. A getelementptr reading its own result is valid IR only in
      unreachable code, where the loop never runs. */
  lemma RewriteEntersAtPointer(ir: IR, gep: InstrId, mi: InstrId, bb: BlockId, pre: BlockId, env: Env)
    requires RewritePre(ir, gep, mi, bb, pre) && ir.ops[gep].op.ptr != Instr(gep)
    requires PreheaderEnv(Rewrite(ir, gep, mi, bb, pre), pre, env)
    ensures env(Seed(ir, gep)) == env(ir.ops[gep].op.ptr)
  {
    if NeedsInitGep(ir, gep) {
      RewriteInitGep(ir, gep, mi, bb, pre);
      var r := Rewrite(ir, gep, mi, bb, pre);
      var z := InitGepId(ir);
      assert r.ops[z].parent == pre && r.ops[z].op.Gep? && r.ops[z].op.index == ConstInt(0);
      assert env(Instr(z)) == GepAddress(env(r.ops[z].op.ptr), 0, r.ops[z].op.elemSize);
    }
  }

  /** Lines 84-122 and 124-142 as addresses, for a loop of the single block
      `bb`: when ScalarEvolution's recurrence `{start,+,CellSize}` for the
      accepted getelementptr is right about the run, the rewritten loop
      touches the same address as the getelementptr in every iteration
      exactly when the pointer operand's address is `start`. The
      classifier does not look at `start`, so an access such as `p[i]` with
      `i` starting at 1 is rewritten into one that starts at `p`. `loop` is
      the loop `runOnLoop` walks: in simplify form, made of `bb` alone, with
      preheader `pre`. */
  lemma RewriteKeepsAddressesIff(ir: IR, se: Oracle, loop: Loop, gep: InstrId, mi: InstrId, bb: BlockId, pre: BlockId,
                                 env: Env, gepAt: nat -> int)
    requires RewritePre(ir, gep, mi, bb, pre) && ir.ops[gep].op.ptr != Instr(gep)
    requires LoopShape(ir, loop) && loop.simplifyForm && loop.blocks == [bb] && loop.preheader == Some(pre)
    requires Accepts(ir, se, Instr(gep)) && ClosedFormHolds(se, Instr(gep), gepAt)
    requires PreheaderEnv(Rewrite(ir, gep, mi, bb, pre), pre, env)
    ensures (forall k: nat :: PhiTrace(Rewrite(ir, gep, mi, bb, pre), PhiId(ir), bb, pre, env, k) == Some(gepAt(k)))
            <==> env(ir.ops[gep].op.ptr) == se(Instr(gep)).value.start
  {
    var r := Rewrite(ir, gep, mi, bb, pre);
    var rec := se(Instr(gep)).value;
    AcceptedMeans(IsGepValue(ir, Instr(gep)), se(Instr(gep)));
    assert rec.step == ConstantStep(CellSize);
    RewriteEntersAtPointer(ir, gep, mi, bb, pre, env);
    if env(ir.ops[gep].op.ptr) == rec.start {
      forall k: nat
        ensures PhiTrace(r, PhiId(ir), bb, pre, env, k) == Some(gepAt(k))
      {
        RewriteAdvancesOneCell(ir, gep, mi, bb, pre, env, k);
      }
    } else {
      RewriteAdvancesOneCell(ir, gep, mi, bb, pre, env, 0);
      assert PhiTrace(r, PhiId(ir), bb, pre, env, 0) != Some(gepAt(0));
    }
  }
}
