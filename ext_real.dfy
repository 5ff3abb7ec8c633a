// Reals extended with the two infinities that the engine uses as the initial
// search window (float("-inf") and float("inf")).

module ExtReal {

  datatype Ext = NegInf | Fin(v: real) | PosInf

  /** The `<=` of floats, extended to the infinities. */
  predicate Le(a: Ext, b: Ext)
  {
    match (a, b)
    case (NegInf, _) => true
    case (_, PosInf) => true
    case (Fin(x), Fin(y)) => x <= y
    case _ => false
  }

  /** Python's max(a, b): `b` when it is strictly greater, else `a`. */
  function Max(a: Ext, b: Ext): (m: Ext)
    ensures Le(a, m) && Le(b, m)
    ensures m == a || m == b
  {
    if Le(b, a) then a else b
  }

  /** Python's min(a, b): `b` when it is strictly smaller, else `a`. */
  function Min(a: Ext, b: Ext): (m: Ext)
    ensures Le(m, a) && Le(m, b)
    ensures m == a || m == b
  {
    if Le(a, b) then a else b
  }
}
