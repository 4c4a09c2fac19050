/**
 * An abstraction of the LLVM IR that the SyncVM indexed load/store recognize
 * pass reads and edits. Instructions live in an arena keyed by their id (an
 * id is never reused, so erasing or inserting an instruction never disturbs
 * another one), and each basic block is the ordered list of the ids it holds.
 */
module Llvm {

  type InstrId = nat
  type BlockId = nat

  datatype Option<T> = None | Some(value: T)

  /** Size in bytes of one SyncVM memory cell: the only stride the pass accepts. */
  const CellSize: int := 32

  /** Allocation size of a pointer on SyncVM (pointers are 256 bits wide). */
  const PointerSize: int := 32

  /** An SSA value: the result of an instruction, a function argument, the
      address of a global, or an integer constant (also standing for a
      constant pointer such as an `inttoptr` of an integer). */
  datatype Value =
    | Instr(id: InstrId)
    | Argument(index: nat)
    | Global(index: nat)
    | ConstInt(c: int)

  /** A value LLVM's constant folder can compute at compile time. */
  predicate IsConstant(v: Value) {
    v.Global? || v.ConstInt?
  }

  /** One entry of a phi: the value flowing in along the edge from `block`. */
  datatype Incoming = Incoming(value: Value, block: BlockId)

  /** The instruction kinds the pass tells apart. A getelementptr is reduced to
      one index: its address is `ptr + index * elemSize`. */
  datatype Op =
    | Phi(incoming: seq<Incoming>)
    | Gep(ptr: Value, index: Value, elemSize: int)
    | Add(lhs: Value, rhs: Value)
    | Load(addr: Value)
    | Store(stored: Value, addr: Value)
    | Terminator(args: seq<Value>)
    | Other(args: seq<Value>)

  /** An instruction together with the block that holds it. */
  datatype Node = Node(parent: BlockId, op: Op)

  /** A function body: the instruction arena, the order of each block and the
      next unused instruction id. */
  datatype IR = IR(ops: map<InstrId, Node>, layout: map<BlockId, seq<InstrId>>, nextId: InstrId)

  predicate IsMemOp(op: Op) {
    op.Load? || op.Store?
  }

  predicate IsPhi(ir: IR, id: InstrId) {
    id in ir.ops && ir.ops[id].op.Phi?
  }

  /** The values an instruction reads, in operand order. */
  function Operands(op: Op): seq<Value> {
    match op
    case Phi(inc) => seq(|inc|, i requires 0 <= i < |inc| => inc[i].value)
    case Gep(p, x, _) => [p, x]
    case Add(a, b) => [a, b]
    case Load(a) => [a]
    case Store(v, a) => [v, a]
    case Terminator(args) => args
    case Other(args) => args
  }

  predicate Uses(op: Op, id: InstrId) {
    Instr(id) in Operands(op)
  }

  predicate ValueBelow(v: Value, n: nat) {
    v.Instr? ==> v.id < n
  }

  /** Every instruction an operation reads was created before id `n`. */
  predicate OperandsBelow(op: Op, n: nat) {
    forall v :: v in Operands(op) ==> ValueBelow(v, n)
  }

  function Subst(v: Value, from: InstrId, to: Value): Value {
    if v == Instr(from) then to else v
  }

  function SubstAll(vs: seq<Value>, from: InstrId, to: Value): (r: seq<Value>)
    ensures |r| == |vs|
    ensures forall i :: 0 <= i < |vs| ==> r[i] == Subst(vs[i], from, to)
  {
    seq(|vs|, i requires 0 <= i < |vs| => Subst(vs[i], from, to))
  }

  /** The operation with every read of instruction `from` redirected to `to`. */
  function ReplaceUse(op: Op, from: InstrId, to: Value): Op {
    match op
    case Phi(inc) =>
      Phi(seq(|inc|, i requires 0 <= i < |inc| => Incoming(Subst(inc[i].value, from, to), inc[i].block)))
    case Gep(p, x, size) => Gep(Subst(p, from, to), Subst(x, from, to), size)
    case Add(a, b) => Add(Subst(a, from, to), Subst(b, from, to))
    case Load(a) => Load(Subst(a, from, to))
    case Store(v, a) => Store(Subst(v, from, to), Subst(a, from, to))
    case Terminator(args) => Terminator(SubstAll(args, from, to))
    case Other(args) => Other(SubstAll(args, from, to))
  }

  lemma OperandsOfReplaceUse(op: Op, from: InstrId, to: Value)
    ensures Operands(ReplaceUse(op, from, to)) == SubstAll(Operands(op), from, to)
  {
    if op.Phi? {
      var a := Operands(ReplaceUse(op, from, to));
      var b := SubstAll(Operands(op), from, to);
      assert |a| == |b|;
      forall i | 0 <= i < |a| ensures a[i] == b[i] { }
    }
  }

  /** A phi's operands grow by the value of the entry appended to it. */
  lemma OperandsOfAppendedPhi(inc: seq<Incoming>, e: Incoming)
    ensures Operands(Phi(inc + [e])) == Operands(Phi(inc)) + [e.value]
  {
  }

  /** After a replacement, nothing reads `from` any more and no operand is
      newer than before. */
  lemma ReplaceUseFacts(op: Op, from: InstrId, to: Value, n: nat)
    requires to != Instr(from)
    ensures !Uses(ReplaceUse(op, from, to), from)
    ensures OperandsBelow(op, n) && ValueBelow(to, n) ==> OperandsBelow(ReplaceUse(op, from, to), n)
  {
    OperandsOfReplaceUse(op, from, to);
    var s := SubstAll(Operands(op), from, to);
    assert forall i :: 0 <= i < |s| ==> s[i] != Instr(from);
    if OperandsBelow(op, n) && ValueBelow(to, n) {
      forall v | v in s ensures ValueBelow(v, n) {
        var i :| 0 <= i < |s| && s[i] == v;
        assert Operands(op)[i] in Operands(op);
      }
    }
  }

  // ---------------------------------------------------------------------
  // Sequences of instruction ids

  /** No element occurs twice in `s`. */
  predicate NoDup(s: seq<InstrId>) {
    forall x {:trigger multiset(s)[x]} :: x in s ==> multiset(s)[x] == 1
  }

  function InsertAt<T>(s: seq<T>, i: nat, x: T): seq<T>
    requires i <= |s|
  {
    s[..i] + [x] + s[i..]
  }

  function RemoveAt<T>(s: seq<T>, i: nat): seq<T>
    requires i < |s|
  {
    s[..i] + s[i + 1..]
  }

  /** The position of the first occurrence of `x` in `s`. */
  function IndexOf<T(==)>(s: seq<T>, x: T): (r: nat)
    requires x in s
    ensures r < |s| && s[r] == x && x !in s[..r]
  {
    if s[0] == x then 0 else 1 + IndexOf(s[1..], x)
  }

  lemma InsertAtFacts<T>(s: seq<T>, i: nat, x: T)
    requires i <= |s|
    ensures |InsertAt(s, i, x)| == |s| + 1 && InsertAt(s, i, x)[i] == x
    ensures InsertAt(s, i, x)[..i] == s[..i]
    ensures forall j :: 0 <= j < i ==> InsertAt(s, i, x)[j] == s[j]
    ensures forall j :: i < j <= |s| ==> InsertAt(s, i, x)[j] == s[j - 1]
    ensures forall y :: y in InsertAt(s, i, x) <==> y == x || y in s
  {
    var r := InsertAt(s, i, x);
    assert s == s[..i] + s[i..];
    forall y ensures y in r <==> y == x || y in s {
      assert y in r <==> y in s[..i] || y == x || y in s[i..];
    }
  }

  lemma RemoveAtFacts<T>(s: seq<T>, i: nat)
    requires i < |s|
    ensures |RemoveAt(s, i)| == |s| - 1
    ensures RemoveAt(s, i)[..i] == s[..i]
    ensures forall j :: 0 <= j < i ==> RemoveAt(s, i)[j] == s[j]
    ensures forall j :: i <= j < |s| - 1 ==> RemoveAt(s, i)[j] == s[j + 1]
    ensures forall y :: y in RemoveAt(s, i) ==> y in s
  {
  }

  lemma MultisetInsertAt<T>(s: seq<T>, i: nat, x: T)
    requires i <= |s|
    ensures multiset(InsertAt(s, i, x)) == multiset(s) + multiset{x}
  {
    assert s == s[..i] + s[i..];
  }

  lemma MultisetRemoveAt<T>(s: seq<T>, i: nat)
    requires i < |s|
    ensures multiset(RemoveAt(s, i)) == multiset(s) - multiset{s[i]}
  {
    assert s == s[..i] + [s[i]] + s[i + 1..];
  }

  lemma NoDupInsertAt(s: seq<InstrId>, i: nat, x: InstrId)
    requires i <= |s| && NoDup(s) && x !in s
    ensures NoDup(InsertAt(s, i, x))
  {
    MultisetInsertAt(s, i, x);
  }

  lemma NoDupRemoveAt(s: seq<InstrId>, i: nat)
    requires i < |s| && NoDup(s)
    ensures NoDup(RemoveAt(s, i))
    ensures s[i] !in RemoveAt(s, i)
    ensures forall y :: y in s && y != s[i] ==> y in RemoveAt(s, i)
  {
    MultisetRemoveAt(s, i);
  }

  /** An element outside a prefix of `s` sits after that prefix. */
  lemma IndexAfterPrefix<T>(s: seq<T>, lead: seq<T>, x: T)
    requires lead <= s && x in s && x !in lead
    ensures IndexOf(s, x) >= |lead|
  {
  }

  /** Inserting or removing after a prefix keeps the prefix. */
  lemma PrefixInsertAt<T>(s: seq<T>, i: nat, x: T, lead: seq<T>)
    requires lead <= s && |lead| <= i <= |s|
    ensures lead <= InsertAt(s, i, x)
  {
    InsertAtFacts(s, i, x);
  }

  /** What precedes an inserted element, followed by it, is a prefix. */
  lemma InsertedAfterPrefix<T>(s: seq<T>, i: nat, x: T)
    requires i <= |s|
    ensures s[..i] + [x] <= InsertAt(s, i, x)
  {
    assert InsertAt(s, i, x) == (s[..i] + [x]) + s[i..];
  }

  lemma PrefixRemoveAt<T>(s: seq<T>, i: nat, lead: seq<T>)
    requires lead <= s && |lead| <= i < |s|
    ensures lead <= RemoveAt(s, i)
  {
    RemoveAtFacts(s, i);
  }

  /** `s` ends with `y` followed by `z`. */
  predicate EndsWith2(s: seq<InstrId>, y: InstrId, z: InstrId) {
    |s| >= 2 && s[|s| - 2] == y && s[|s| - 1] == z
  }

  /** Removing an element other than the last two keeps them last. */
  lemma EndsWith2RemoveAt(s: seq<InstrId>, i: nat, y: InstrId, z: InstrId)
    requires i < |s| && EndsWith2(s, y, z) && i < |s| - 2
    ensures EndsWith2(RemoveAt(s, i), y, z)
  {
    RemoveAtFacts(s, i);
  }

  /** Inserting just before the last element puts the new one next to last. */
  lemma EndsWith2InsertAt(s: seq<InstrId>, x: InstrId)
    requires |s| > 0
    ensures EndsWith2(InsertAt(s, |s| - 1, x), x, s[|s| - 1])
  {
    InsertAtFacts(s, |s| - 1, x);
  }

  /** `s` ends with `x`. */
  predicate EndsWith(s: seq<InstrId>, x: InstrId) {
    |s| > 0 && s[|s| - 1] == x
  }

  /** Inserting before the end, or removing other than the last element,
      keeps the last element. */
  lemma EndsWithInsertAt(s: seq<InstrId>, i: nat, y: InstrId, x: InstrId)
    requires i < |s| && EndsWith(s, x)
    ensures EndsWith(InsertAt(s, i, y), x)
  {
    InsertAtFacts(s, i, y);
  }

  lemma EndsWithRemoveAt(s: seq<InstrId>, i: nat, x: InstrId)
    requires i < |s| - 1 && EndsWith(s, x)
    ensures EndsWith(RemoveAt(s, i), x)
  {
    RemoveAtFacts(s, i);
  }

  /** `s` with the ids in `xs` left out, in the same order. */
  function Without(s: seq<InstrId>, xs: set<InstrId>): seq<InstrId> {
    if s == [] then [] else (if s[0] in xs then [] else [s[0]]) + Without(s[1..], xs)
  }

  lemma {:induction false} WithoutAppend(a: seq<InstrId>, b: seq<InstrId>, xs: set<InstrId>)
    ensures Without(a + b, xs) == Without(a, xs) + Without(b, xs)
  {
    if a == [] {
      assert a + b == b;
    } else {
      assert (a + b)[1..] == a[1..] + b;
      WithoutAppend(a[1..], b, xs);
    }
  }

  lemma WithoutInsertAt(s: seq<InstrId>, i: nat, x: InstrId, xs: set<InstrId>)
    requires i <= |s| && x in xs
    ensures Without(InsertAt(s, i, x), xs) == Without(s, xs)
  {
    assert Without([x], xs) == [] by { assert [x][1..] == []; }
    WithoutAppend(s[..i] + [x], s[i..], xs);
    WithoutAppend(s[..i], [x], xs);
    WithoutAppend(s[..i], s[i..], xs);
    assert s == s[..i] + s[i..];
  }

  lemma WithoutRemoveAt(s: seq<InstrId>, i: nat, xs: set<InstrId>)
    requires i < |s| && s[i] in xs
    ensures Without(RemoveAt(s, i), xs) == Without(s, xs)
  {
    assert s == s[..i] + [s[i]] + s[i + 1..];
    assert Without([s[i]], xs) == [] by { assert [s[i]][1..] == []; }
    WithoutAppend(s[..i] + [s[i]], s[i + 1..], xs);
    WithoutAppend(s[..i], [s[i]], xs);
    WithoutAppend(s[..i], s[i + 1..], xs);
  }

  lemma {:induction false} WithoutAgrees(s: seq<InstrId>, xs: set<InstrId>, ys: set<InstrId>)
    requires forall y :: y in s ==> (y in xs <==> y in ys)
    ensures Without(s, xs) == Without(s, ys)
  {
    if s != [] {
      assert s[0] in s;
      forall y | y in s[1..] ensures y in xs <==> y in ys { assert y in s; }
      WithoutAgrees(s[1..], xs, ys);
    }
  }

  // ---------------------------------------------------------------------
  // Well-formed function bodies

  /** Ids are below `nextId`, every instruction sits exactly once in the block
      it names as parent, and no operand names an id not yet handed out. */
  ghost predicate WellFormed(ir: IR) {
    && (forall id :: id in ir.ops ==>
          id < ir.nextId && ir.ops[id].parent in ir.layout && id in ir.layout[ir.ops[id].parent])
    && (forall b :: b in ir.layout ==> NoDup(ir.layout[b]))
    && (forall b, i :: b in ir.layout && 0 <= i < |ir.layout[b]| ==>
          ir.layout[b][i] in ir.ops && ir.ops[ir.layout[b][i]].parent == b)
    && (forall id :: id in ir.ops ==> OperandsBelow(ir.ops[id].op, ir.nextId))
  }

  /** Block `b` is closed by a terminator, as every block of valid IR is. */
  predicate EndsInTerminator(ir: IR, b: BlockId) {
    && b in ir.layout && |ir.layout[b]| > 0
    && ir.layout[b][|ir.layout[b]| - 1] in ir.ops
    && ir.ops[ir.layout[b][|ir.layout[b]| - 1]].op.Terminator?
  }

  lemma InBlockMeansParent(ir: IR, b: BlockId, id: InstrId)
    requires WellFormed(ir) && b in ir.layout && id in ir.layout[b]
    ensures id in ir.ops && ir.ops[id].parent == b
  {
    var i :| 0 <= i < |ir.layout[b]| && ir.layout[b][i] == id;
  }

  /** The position of the first instruction of `s` that is not a phi (`|s|` if
      there is none): the insertion point `getFirstNonPHI` designates. */
  function FirstNonPhi(ir: IR, s: seq<InstrId>): (r: nat)
    ensures r <= |s|
    ensures forall i :: 0 <= i < r ==> IsPhi(ir, s[i])
    ensures r < |s| ==> !IsPhi(ir, s[r])
  {
    if s == [] || !IsPhi(ir, s[0]) then 0 else 1 + FirstNonPhi(ir, s[1..])
  }

  // ---------------------------------------------------------------------
  // The edits the pass performs, as functions of the function body

  /** A new instruction `op` at position `pos` of block `bb`, under the next
      free id (IRBuilder's Create* at an insertion point). */
  function WithInserted(ir: IR, bb: BlockId, pos: nat, op: Op): IR
    requires bb in ir.layout && pos <= |ir.layout[bb]|
  {
    IR(ir.ops[ir.nextId := Node(bb, op)],
       ir.layout[bb := InsertAt(ir.layout[bb], pos, ir.nextId)],
       ir.nextId + 1)
  }

  /** `PHINode::addIncoming`: one more entry at the end of the phi's list. */
  function WithIncoming(ir: IR, phi: InstrId, v: Value, from: BlockId): IR
    requires IsPhi(ir, phi)
  {
    var n := ir.ops[phi];
    ir.(ops := ir.ops[phi := Node(n.parent, Phi(n.op.incoming + [Incoming(v, from)]))])
  }

  /** `Value::replaceAllUsesWith`: every read of `from` now reads `to`. */
  function WithUsesReplaced(ir: IR, from: InstrId, to: Value): IR {
    ir.(ops := map id | id in ir.ops :: Node(ir.ops[id].parent, ReplaceUse(ir.ops[id].op, from, to)))
  }

  /** `Instruction::eraseFromParent`: the instruction leaves its block and the arena. */
  function WithErased(ir: IR, id: InstrId): IR
    requires id in ir.ops && ir.ops[id].parent in ir.layout && id in ir.layout[ir.ops[id].parent]
  {
    var b := ir.ops[id].parent;
    IR(ir.ops - {id}, ir.layout[b := RemoveAt(ir.layout[b], IndexOf(ir.layout[b], id))], ir.nextId)
  }

  /** Whether IRBuilder's default constant folder folds `getelementptr ptr,
      index`: a zero index on a constant pointer folds to that pointer. */
  predicate GepFolds(ptr: Value, index: Value) {
    IsConstant(ptr) && index == ConstInt(0)
  }

  /** The body after IRBuilder's `CreateInBoundsGEP` at position `pos` of
      `bb`: unchanged when the getelementptr folds, otherwise with a new
      getelementptr instruction there. */
  function WithGepBuilt(ir: IR, bb: BlockId, pos: nat, ptr: Value, index: Value, elemSize: int): IR
    requires bb in ir.layout && pos <= |ir.layout[bb]|
  {
    if GepFolds(ptr, index) then ir else WithInserted(ir, bb, pos, Gep(ptr, index, elemSize))
  }

  /** The value `CreateInBoundsGEP` returns: the folded constant, or the new
      instruction. */
  function GepBuilt(ir: IR, ptr: Value, index: Value): Value {
    if GepFolds(ptr, index) then ptr else Instr(ir.nextId)
  }

  lemma WithInsertedFacts(ir: IR, bb: BlockId, pos: nat, op: Op)
    requires WellFormed(ir) && bb in ir.layout && pos <= |ir.layout[bb]|
    requires OperandsBelow(op, ir.nextId)
    ensures WellFormed(WithInserted(ir, bb, pos, op))
    ensures ir.nextId !in ir.ops
  {
    var r := WithInserted(ir, bb, pos, op);
    var x := ir.nextId;
    var s := ir.layout[bb];
    assert x !in ir.ops;
    assert x !in s by {
      if x in s { InBlockMeansParent(ir, bb, x); }
    }
    InsertAtFacts(s, pos, x);
    NoDupInsertAt(s, pos, x);
    forall id | id in r.ops
      ensures id < r.nextId && r.ops[id].parent in r.layout && id in r.layout[r.ops[id].parent]
    {
    }
    forall b, i | b in r.layout && 0 <= i < |r.layout[b]|
      ensures r.layout[b][i] in r.ops && r.ops[r.layout[b][i]].parent == b
    {
      if b == bb && i != pos {
        var j := if i < pos then i else i - 1;
        assert r.layout[b][i] == s[j];
      }
    }
    forall id | id in r.ops ensures OperandsBelow(r.ops[id].op, r.nextId) {
      if id != x {
        assert OperandsBelow(ir.ops[id].op, ir.nextId);
      }
    }
  }

  lemma WithIncomingFacts(ir: IR, phi: InstrId, v: Value, from: BlockId)
    requires WellFormed(ir) && IsPhi(ir, phi) && ValueBelow(v, ir.nextId)
    ensures WellFormed(WithIncoming(ir, phi, v, from))
  {
    var r := WithIncoming(ir, phi, v, from);
    var old_inc := ir.ops[phi].op.incoming;
    var new_inc := old_inc + [Incoming(v, from)];
    forall w | w in Operands(r.ops[phi].op) ensures ValueBelow(w, r.nextId) {
      var i :| 0 <= i < |new_inc| && new_inc[i].value == w;
      if i < |old_inc| {
        assert Operands(ir.ops[phi].op)[i] == w;
      }
    }
  }

  lemma WithUsesReplacedFacts(ir: IR, from: InstrId, to: Value)
    requires WellFormed(ir) && ValueBelow(to, ir.nextId) && to != Instr(from)
    ensures WellFormed(WithUsesReplaced(ir, from, to))
    ensures forall id :: id in WithUsesReplaced(ir, from, to).ops ==>
              !Uses(WithUsesReplaced(ir, from, to).ops[id].op, from)
  {
    var r := WithUsesReplaced(ir, from, to);
    forall id | id in r.ops
      ensures OperandsBelow(r.ops[id].op, r.nextId) && !Uses(r.ops[id].op, from)
    {
      ReplaceUseFacts(ir.ops[id].op, from, to, ir.nextId);
    }
  }

  lemma WithErasedFacts(ir: IR, id: InstrId)
    requires WellFormed(ir) && id in ir.ops
    ensures ir.ops[id].parent in ir.layout && id in ir.layout[ir.ops[id].parent]
    ensures WellFormed(WithErased(ir, id))
  {
    var r := WithErased(ir, id);
    var b := ir.ops[id].parent;
    var s := ir.layout[b];
    var k := IndexOf(s, id);
    NoDupRemoveAt(s, k);
    RemoveAtFacts(s, k);
    forall x | x in r.ops
      ensures x < r.nextId && r.ops[x].parent in r.layout && x in r.layout[r.ops[x].parent]
    {
    }
    forall c, i | c in r.layout && 0 <= i < |r.layout[c]|
      ensures r.layout[c][i] in r.ops && r.ops[r.layout[c][i]].parent == c
    {
      if c == b {
        var y := r.layout[c][i];
        assert y in s;
        InBlockMeansParent(ir, b, y);
      }
    }
  }

  // ---------------------------------------------------------------------
  // The function body as mutable state

  /** The body of the LLVM function the pass edits in place. */
  class Function {
    var ops: map<InstrId, Node>
    var layout: map<BlockId, seq<InstrId>>
    var nextId: InstrId

    function State(): IR
      reads this
    {
      IR(ops, layout, nextId)
    }

    constructor (body: IR)
      ensures State() == body
    {
      ops, layout, nextId := body.ops, body.layout, body.nextId;
    }

    /** Creates `op` at position `pos` of block `bb` and returns its id. */
    method Insert(bb: BlockId, pos: nat, op: Op) returns (id: InstrId)
      requires bb in layout && pos <= |layout[bb]|
      modifies this
      ensures id == old(nextId) && id in ops && ops[id] == Node(bb, op)
      ensures State() == WithInserted(old(State()), bb, pos, op)
    {
      id := nextId;
      ops := ops[id := Node(bb, op)];
      layout := layout[bb := InsertAt(layout[bb], pos, id)];
      nextId := nextId + 1;
    }

    /** IRBuilder's `CreateInBoundsGEP` at position `pos` of block `bb`. */
    method CreateInBoundsGep(bb: BlockId, pos: nat, ptr: Value, index: Value, elemSize: int) returns (v: Value)
      requires bb in layout && pos <= |layout[bb]|
      modifies this
      ensures v == GepBuilt(old(State()), ptr, index)
      ensures State() == WithGepBuilt(old(State()), bb, pos, ptr, index, elemSize)
    {
      if IsConstant(ptr) && index == ConstInt(0) {
        v := ptr;
      } else {
        var id := Insert(bb, pos, Gep(ptr, index, elemSize));
        v := Instr(id);
      }
    }

    method AddIncoming(phi: InstrId, v: Value, from: BlockId)
      requires IsPhi(State(), phi)
      modifies this
      ensures State() == WithIncoming(old(State()), phi, v, from)
    {
      var n := ops[phi];
      ops := ops[phi := Node(n.parent, Phi(n.op.incoming + [Incoming(v, from)]))];
    }

    method ReplaceAllUsesWith(from: InstrId, to: Value)
      modifies this
      ensures State() == WithUsesReplaced(old(State()), from, to)
    {
      ops := map id | id in ops :: Node(ops[id].parent, ReplaceUse(ops[id].op, from, to));
    }

    method EraseFromParent(id: InstrId)
      requires id in ops && ops[id].parent in layout && id in layout[ops[id].parent]
      modifies this
      ensures State() == WithErased(old(State()), id)
    {
      var b := ops[id].parent;
      layout := layout[b := RemoveAt(layout[b], IndexOf(layout[b], id))];
      ops := ops - {id};
    }
  }
}
