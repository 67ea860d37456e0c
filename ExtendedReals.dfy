/**
  Log-probabilities as the decoder sees them: a finite real number or
  negative infinity (the value the trigram guard assigns).  Floating-point
  rounding is not modelled; finite scores are exact reals.
 */
module ExtendedReals {

  datatype ExtReal = NegInf | Fin(val: real)

  /** Addition as IEEE floats do it when +infinity never occurs. */
  function Add(a: ExtReal, b: ExtReal): (r: ExtReal)
    ensures r.NegInf? <==> a.NegInf? || b.NegInf?
    ensures r.Fin? ==> r.val == a.val + b.val
  {
    if a.NegInf? || b.NegInf? then NegInf else Fin(a.val + b.val)
  }

  /** a <= b in the extended order, negative infinity below every real. */
  predicate Le(a: ExtReal, b: ExtReal)
  {
    a.NegInf? || (b.Fin? && a.val <= b.val)
  }

  /** Strictly below. */
  predicate Lt(a: ExtReal, b: ExtReal)
  {
    !Le(b, a)
  }

  /** Division by a positive count, as in `log_prob / len(tokens)`. */
  function DivBy(a: ExtReal, n: nat): (r: ExtReal)
    requires n > 0
    ensures r.NegInf? <==> a.NegInf?
    ensures r.Fin? ==> r.val * (n as real) == a.val
  {
    if a.NegInf? then NegInf else Fin(a.val / (n as real))
  }

  /**
    Python's `sum(xs)`: a left fold starting from zero.  The total is
    negative infinity exactly when one of the terms is.
   */
  function Sum(s: seq<ExtReal>): (r: ExtReal)
    ensures r.NegInf? <==> NegInf in s
  {
    if s == [] then Fin(0.0) else Add(Sum(s[..|s| - 1]), s[|s| - 1])
  }

  lemma LeTotal(a: ExtReal, b: ExtReal)
    ensures Le(a, b) || Le(b, a)
  {
  }

  lemma LeTransitive(a: ExtReal, b: ExtReal, c: ExtReal)
    requires Le(a, b) && Le(b, c)
    ensures Le(a, c)
  {
  }
}
