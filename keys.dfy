/** Keys compared by the skip list: a stored integer value, or one of the two
    sentinel bounds that the low and the high sentinel node carry. */
module Keys {

  datatype Key = NegInf | Val(v: int) | PosInf

  /** The strict order on keys: NegInf is below every value, PosInf above
      every value, and values compare as integers. */
  predicate Less(a: Key, b: Key)
  {
    match a
    case NegInf => !b.NegInf?
    case Val(x) => b.PosInf? || (b.Val? && x < b.v)
    case PosInf => false
  }

  /** Less is a strict total order, as the search relies on. */
  lemma LessIsStrictTotalOrder(a: Key, b: Key, c: Key)
    ensures !Less(a, a)
    ensures Less(a, b) && Less(b, c) ==> Less(a, c)
    ensures a == b || Less(a, b) || Less(b, a)
  {
  }
}
