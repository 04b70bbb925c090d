/** The comparison operators of a WHERE clause. */
module Comparison {
  datatype CompareOperator = Equals | NotEquals | Greater | GreaterOrEqual | Less | LessOrEqual

  predicate Matches(op: CompareOperator, left: int, right: int) {
    match op
    case Equals => left == right
    case NotEquals => left != right
    case Greater => left > right
    case GreaterOrEqual => left >= right
    case Less => left < right
    case LessOrEqual => left <= right
  }
}
