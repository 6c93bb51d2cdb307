/**
 * Facts about multiplication and division by a variable divisor, which
 * the solver's linear arithmetic does not find on its own.
 */
module Arith {

  /** Multiplying by a non-negative factor keeps order. */
  lemma {:induction false} MulMono(d: int, a: int, b: int)
    requires d >= 0 && a <= b
    ensures d * a <= d * b
    decreases d
  {
    if d > 0 {
      MulMono(d - 1, a, b);
      assert d * a == (d - 1) * a + a;
      assert d * b == (d - 1) * b + b;
    }
  }

  /** A strict inequality between multiples of a positive factor holds between the multiplicands. */
  lemma MulLtCancel(d: int, a: int, b: int)
    requires d > 0 && d * a < d * b
    ensures a < b
  {
    if a >= b {
      MulMono(d, b, a);
      assert false;
    }
  }

  lemma MulLeCancel(d: int, a: int, b: int)
    requires d > 0 && d * a <= d * b
    ensures a <= b
  {
    assert d * (b + 1) == d * b + d;
    MulLtCancel(d, a, b + 1);
  }

  /** A multiple that fits is at most the quotient. */
  lemma DivLower(q: nat, d: nat, n: nat)
    requires d >= 1 && q * d <= n
    ensures q <= n / d
  {
    var r := n / d;
    assert n < d * r + d;
    assert d * (r + 1) == d * r + d;
    assert d * q == q * d;
    MulLtCancel(d, q, r + 1);
  }

  /** A number from one multiple of `d` up to the next has that multiple's factor as quotient. */
  lemma DivOfBracket(n: nat, d: nat, q: nat)
    requires d >= 1 && q * d <= n < q * d + d
    ensures n / d == q
  {
    var r := n / d;
    assert d * r <= n < d * r + d;
    assert d * (r + 1) == d * r + d;
    assert d * (q + 1) == q * d + d;
    assert d * q == q * d;
    MulLtCancel(d, q, r + 1);
    MulLtCancel(d, r, q + 1);
  }
}
