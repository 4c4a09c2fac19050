/**
 * The stride classifier `IsIncByOneCell`: decides, from what ScalarEvolution
 * says about an address, whether the address advances by exactly one SyncVM
 * cell on every loop iteration.
 */
module Classifier {
  import opened Llvm

  /** The step of an add-recurrence: a compile-time constant or an expression
      that does not fold to a constant. */
  datatype Step = ConstantStep(stride: int) | SymbolicStep

  /** An add-recurrence `{start,+,step}` as ScalarEvolution describes a value
      that changes with the loop: `start` is the value on entry to the loop,
      taken in the one run under consideration (ScalarEvolution states it as
      an expression over values computed before the loop). The pass looks
      only at the step. */
  datatype AddRec = AddRec(start: int, step: Step)

  /** ScalarEvolution's answer for a value: no closed form at all, or an
      add-recurrence (the pass casts every non-null answer to one). */
  type Oracle = Value -> Option<AddRec>

  /** Accepts an address only when it is a getelementptr and its closed form,
      if there is one, steps by a constant equal to `CellSize`. A missing
      closed form is accepted. */
  function IsIncByOneCell(isGep: bool, closedForm: Option<AddRec>): (r: bool)
    ensures !isGep ==> !r
    ensures closedForm.None? ==> r == isGep
    ensures r ==> closedForm.None? || closedForm.value.step.ConstantStep?
  {
    if !isGep then false
    else if closedForm.Some? then
      match closedForm.value.step
      case SymbolicStep => false
      case ConstantStep(stride) => stride == CellSize
    else true
  }

  lemma NonGepIsRejected(closedForm: Option<AddRec>)
    ensures !IsIncByOneCell(false, closedForm)
  {
  }

  lemma ClosedFormDecides(rec: AddRec)
    ensures IsIncByOneCell(true, Some(rec)) <==> rec.step == ConstantStep(CellSize)
    ensures rec.step.SymbolicStep? ==> !IsIncByOneCell(true, Some(rec))
    ensures forall start, c :: c != CellSize ==> !IsIncByOneCell(true, Some(AddRec(start, ConstantStep(c))))
    ensures forall start, start' :: IsIncByOneCell(true, Some(AddRec(start, rec.step))) == IsIncByOneCell(true, Some(AddRec(start', rec.step)))
  {
  }

  lemma MissingClosedFormIsAccepted()
    ensures IsIncByOneCell(true, None)
  {
  }

  /** An accepted address is a getelementptr whose closed form, when there is
      one, has the constant step `CellSize`. */
  lemma AcceptedMeans(isGep: bool, closedForm: Option<AddRec>)
    ensures IsIncByOneCell(isGep, closedForm) <==>
              isGep && (closedForm.None? || closedForm.value.step == ConstantStep(CellSize))
  {
  }
}
