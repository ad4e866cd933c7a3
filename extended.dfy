/** Python integers together with `float("inf")`, which several files use
    as the starting value of a minimum or as an unknown distance or
    height. Only the operations they apply to it are modelled. */
module Extended {
  datatype Ext = Fin(n: int) | Inf

  /** `a + k` (`inf + k` is `inf`). */
  function Add(a: Ext, k: int): (r: Ext)
    ensures r.Inf? <==> a.Inf?
    ensures a.Fin? ==> r.n == a.n + k
  {
    match a
    case Fin(x) => Fin(x + k)
    case Inf => Inf
  }

  /** `a < b`. */
  predicate Less(a: Ext, b: Ext)
  {
    a.Fin? && (b.Inf? || a.n < b.n)
  }

  /** `a <= b`. */
  predicate AtMost(a: Ext, b: Ext)
  {
    !Less(b, a)
  }

  /** `min(a, b)`: `b` only when it is smaller than `a`. */
  function Min(a: Ext, b: Ext): (r: Ext)
    ensures AtMost(r, a) && AtMost(r, b) && (r == a || r == b)
  {
    if Less(b, a) then b else a
  }

  lemma {:induction false} AtMostTrans(a: Ext, b: Ext, c: Ext)
    requires AtMost(a, b) && AtMost(b, c)
    ensures AtMost(a, c)
  {
  }
}
