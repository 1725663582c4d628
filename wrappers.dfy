/** Optional values, used wherever the source answers `null`, `undefined` or `false` instead of a value. */
module Wrappers {
  datatype Option<T> = None | Some(value: T)

  /** An integer extended with the two infinities the source uses as sentinels. */
  datatype ExtInt = NegInf | Finite(n: int) | PosInf

  predicate Less(a: ExtInt, b: ExtInt)
  {
    match (a, b)
    case (NegInf, NegInf) => false
    case (NegInf, _) => true
    case (Finite(x), Finite(y)) => x < y
    case (Finite(_), PosInf) => true
    case _ => false
  }
}
