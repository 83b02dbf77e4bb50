/**
  The values alpha-beta search compares: integers (heuristic scores) and
  the two float infinities the search starts its window and its running
  best values from.
 */
module ExtInt {

  datatype EInt = NegInf | Fin(n: int) | PosInf

  /** `a <= b` on the extended line. */
  predicate LessEq(a: EInt, b: EInt)
  {
    a.NegInf? || b.PosInf? || (a.Fin? && b.Fin? && a.n <= b.n)
  }

  predicate Less(a: EInt, b: EInt)
  {
    !LessEq(b, a)
  }

  function Max(a: EInt, b: EInt): (m: EInt)
    ensures LessEq(a, m) && LessEq(b, m)
    ensures m == a || m == b
  {
    if LessEq(a, b) then b else a
  }

  function Min(a: EInt, b: EInt): (m: EInt)
    ensures LessEq(m, a) && LessEq(m, b)
    ensures m == a || m == b
  {
    if LessEq(a, b) then a else b
  }

  /** `x` pulled into the window `[lo, hi]`; for an empty window (`hi <= lo`)
      every value is pulled to `hi`. */
  function Clamp(x: EInt, lo: EInt, hi: EInt): (r: EInt)
    ensures LessEq(lo, hi) && LessEq(lo, x) && LessEq(x, hi) ==> r == x
    ensures LessEq(lo, hi) ==> LessEq(lo, r) && LessEq(r, hi)
    ensures LessEq(hi, lo) ==> r == hi
  {
    Min(Max(x, lo), hi)
  }

  /** `LessEq` is a total order. */
  lemma TotalOrder(a: EInt, b: EInt, c: EInt)
    ensures LessEq(a, a)
    ensures LessEq(a, b) || LessEq(b, a)
    ensures LessEq(a, b) && LessEq(b, a) ==> a == b
    ensures LessEq(a, b) && LessEq(b, c) ==> LessEq(a, c)
  {
  }
}
