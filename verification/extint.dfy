/**
 Integers extended with minus and plus infinity: the values the search's
 alpha, beta and running best take (`minimax` uses `math.inf` and
 `-math.inf` for them).
 */
module ExtInt {

  datatype ExtInt = NegInf | Fin(n: int) | PosInf

  predicate Le(a: ExtInt, b: ExtInt) {
    a.NegInf? || b.PosInf? || (a.Fin? && b.Fin? && a.n <= b.n)
  }

  predicate Lt(a: ExtInt, b: ExtInt) {
    !Le(b, a)
  }

  function Max(a: ExtInt, b: ExtInt): (m: ExtInt)
    ensures Le(a, m) && Le(b, m) && (m == a || m == b)
  {
    if Le(a, b) then b else a
  }

  function Min(a: ExtInt, b: ExtInt): (m: ExtInt)
    ensures Le(m, a) && Le(m, b) && (m == a || m == b)
  {
    if Le(a, b) then a else b
  }

}
