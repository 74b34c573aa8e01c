/** Small facts about integer multiplication and division that the solver needs spelled out. */
module Arith {

  lemma MulMono(a: nat, b: nat, c: nat)
    requires a <= b
    ensures a * c <= b * c
  {
  }

  lemma MulSucc(a: nat, c: nat)
    ensures (a + 1) * c == a * c + c
  {
  }

  /** Division is determined by any quotient/remainder split. */
  lemma DivUnique(a: int, d: int, q: int, r: int)
    requires d > 0 && 0 <= r < d && a == q * d + r
    ensures a / d == q && a % d == r
  {
    var k := a / d - q;
    assert d * k == r - a % d;
  }

  lemma MultipleRemainder(p: nat, d: nat)
    requires d >= 1
    ensures (p * d) % d == 0 && (p * d) / d == p
  {
    DivUnique(p * d, d, p, 0);
  }

  lemma DivBounds(x: nat, d: nat)
    requires d > 0
    ensures (x / d) * d <= x < (x / d + 1) * d
  {
  }

  /** Division by a positive number is monotone. */
  lemma DivMono(a: nat, b: nat, d: nat)
    requires a <= b && d > 0
    ensures a / d <= b / d
  {
    DivBounds(a, d);
    DivBounds(b, d);
    if a / d > b / d {
      MulMono(b / d + 1, a / d, d);
    }
  }

  lemma DivFromBounds(x: nat, q: nat, d: nat)
    requires d >= 1 && q * d <= x < (q + 1) * d
    ensures x / d == q
  {
    DivUnique(x, d, q, x - q * d);
  }
}
