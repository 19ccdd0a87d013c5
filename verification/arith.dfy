/** Small facts of integer multiplication and Euclidean division, kept apart so
    each nonlinear step is proved once and on its own. */
module Arith {

  /** Multiplying by a non-negative number keeps the order. */
  lemma MulMono(a: int, b: int, c: int)
    requires 0 <= c
    ensures a <= b ==> a * c <= b * c
  {
    assert b * c == a * c + (b - a) * c;
    if a <= b { assert (b - a) * c >= 0; }
  }

  /** Euclidean division is unique: `n == q * b + r` with `0 <= r < b` fixes the
      quotient and the remainder. */
  lemma DivModUnique(n: int, b: int, q: int, r: int)
    requires b > 0 && n == q * b + r && 0 <= r < b
    ensures n / b == q && n % b == r
  {
    var q', r' := n / b, n % b;
    assert n == q' * b + r';
    MulMono(q' + 1, q, b);
    MulMono(q + 1, q', b);
    assert (q' + 1) * b == q' * b + b;
    assert (q + 1) * b == q * b + b;
  }

  /** A number in [0, n) is its own remainder. */
  lemma ModBelow(a: int, n: int)
    requires 0 <= a < n
    ensures a % n == a
  {
    DivModUnique(a, n, 0, a);
  }

  /** A number in [n, 2n) loses one n. */
  lemma ModOnce(a: int, n: int)
    requires n > 0 && n <= a < 2 * n
    ensures a % n == a - n
  {
    DivModUnique(a, n, 1, a - n);
  }
}
