/**
 * Python floats as far as the DSC reader needs them. Parsing and printing of
 * floats are not modelled: they are the collaborator `FloatLib`, which every
 * operation that touches a float receives as a parameter.
 */
module Floats {
  import opened Wrappers

  /** An IEEE-754 double: a finite value (held exactly), a signed infinity, or NaN. */
  datatype Float = Finite(value: real) | Infinite(negative: bool) | NaN

  /** IEEE `<`: false whenever either operand is NaN. */
  function Less(a: Float, b: Float): bool
  {
    match (a, b)
    case (NaN, _) => false
    case (_, NaN) => false
    case (Infinite(na), Infinite(nb)) => na && !nb
    case (Infinite(na), Finite(_)) => na
    case (Finite(_), Infinite(nb)) => !nb
    case (Finite(x), Finite(y)) => x < y
  }

  /**
   * The Python built-ins the reader calls on floats:
   *   parse(s)  = float(s), `None` where Python raises ValueError;
   *   show(x)   = str(x);
   *   fixed6(x) = "%.6f" % x.
   */
  datatype FloatLib = FloatLib(parse: string -> Option<Float>, show: Float -> string, fixed6: Float -> string)

  /** `<` on floats is a strict order, total once NaN is set aside. */
  lemma LessIsStrictOrder(a: Float, b: Float, c: Float)
    ensures !Less(a, a)
    ensures Less(a, b) ==> !Less(b, a)
    ensures Less(a, b) && Less(b, c) ==> Less(a, c)
    ensures !a.NaN? && !b.NaN? ==> (Less(a, b) || a == b || Less(b, a))
  {
  }

  /** NaN is unordered: it is neither below nor above anything. */
  lemma NaNIsUnordered(a: Float)
    ensures !Less(NaN, a) && !Less(a, NaN)
  {
  }
}
