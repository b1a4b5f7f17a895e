/** Facts about integer multiplication and Euclidean division that the solver
    does not find on its own; used by the sieve and by the flat matrix layout. */
module Arith {

  /** Largest value of a C `int`. */
  const INT_MAX: int := 0x7fff_ffff

  /** Monotonicity of multiplication by a non-negative factor, in both argument orders. */
  lemma MulMono(a: int, b: int, c: int)
    ensures 0 <= c && a <= b ==> a * c <= b * c && c * a <= c * b
    ensures 0 < c && a < b ==> a * c < b * c && c * a < c * b
  {}

  /** Euclidean division by a positive d has a unique quotient and remainder. */
  lemma DivModUnique(k: int, d: int, q: int, t: int)
    requires 0 < d && k == d * q + t && 0 <= t < d
    ensures k / d == q && k % d == t
  {
    var q' := k / d;
    MulMono(q', q - 1, d);
    MulMono(q + 1, q', d);
    assert d * (q - 1) == d * q - d && d * (q + 1) == d * q + d;
  }

  lemma MulMod(d: int, q: int)
    requires 0 < d
    ensures (d * q) % d == 0
  {
    DivModUnique(d * q, d, q, 0);
  }
}
