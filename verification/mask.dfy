/** The edit-mask value handed to the matcher.

    A mask is its raw text plus, for a dynamic mask, the operand whose
    run-time value the check would depend on. Nothing is validated when a
    mask is built: a malformed text is only refused when it is matched. Both
    fields are fixed at construction and there are no setters, which the
    immutable datatype reflects. */
module Masks {
  import opened Results

  datatype Mask = Mask(constant: string, operand: Option<string>) {

    function GetConstant(): string {
      constant
    }

    /** A mask is dynamic exactly when an operand was supplied. */
    predicate IsDynamicMask() {
      operand.Some?
    }
  }

  /** The one-argument constructor: the text alone, no operand. */
  function StaticMask(constant: string): (m: Mask)
    ensures !m.IsDynamicMask()
    ensures m.GetConstant() == constant
  {
    Mask(constant, None)
  }

  /** The two-argument constructor; a `null` operand still gives a static mask. */
  function MaskWithOperand(constant: string, operand: Option<string>): (m: Mask)
    ensures m.IsDynamicMask() <==> operand.Some?
    ensures m.GetConstant() == constant
  {
    Mask(constant, operand)
  }
}
