/** The binary operators of expressions and the tables the decompiler keeps about them. */
module Operators {
  import opened Options

  datatype Op =
    | Plus | Minus | Mul | Div | Rem
    | ShiftLeft | ShiftRight
    | Eq | Ne | Lt | Le | Gt | Ge
    | And | Or | Xor
    | BitAnd | BitOr

  predicate IsCompare(op: Op) { op.Eq? || op.Ne? || op.Lt? || op.Le? || op.Gt? || op.Ge? }

  predicate IsLogical(op: Op) { op.And? || op.Or? || op.Xor? }

  predicate IsShift(op: Op) { op.ShiftLeft? || op.ShiftRight? }

  predicate IsBitwise(op: Op) { op.BitAnd? || op.BitOr? }

  /** The table of inverted operations; the other operators have none. */
  function InverseOf(op: Op): Option<Op> {
    match op
    case Plus => Some(Minus)
    case Minus => Some(Plus)
    case Mul => Some(Div)
    case Div => Some(Mul)
    case ShiftLeft => Some(ShiftRight)
    case ShiftRight => Some(ShiftLeft)
    case Eq => Some(Ne)
    case Ne => Some(Eq)
    case Lt => Some(Ge)
    case Ge => Some(Lt)
    case Le => Some(Gt)
    case Gt => Some(Le)
    case _ => None
  }
}
