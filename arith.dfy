/** Small facts about products and quotients of naturals, one step each. */
module Arith {

  lemma MulMono(a: nat, x: nat, y: nat)
    requires x <= y
    ensures a * x <= a * y
    ensures x * a <= y * a
  {
  }

  lemma MulNonneg(x: nat, y: nat)
    ensures x * y >= 0
  {
  }

  lemma MulStep(n: int, y: int)
    ensures (n + 1) * y == n * y + y
    ensures (n - 1) * y == n * y - y
  {
  }

  /** Multiples of `y` below and above `x` bracket their factors. */
  lemma MulOrder(m: nat, n: nat, y: nat)
    requires y > 0 && m * y < n * y
    ensures m < n
  {
    if m >= n {
      MulMono(y, n, m);
    }
  }

  lemma MulSub(a: int, x: int, y: int)
    ensures (x - y) * a == x * a - y * a
  {
  }

  /** `(x / y) * y <= x < (x / y + 1) * y`. */
  lemma DivBracket(x: nat, y: nat)
    requires y > 0
    ensures (x / y) * y <= x < (x / y + 1) * y
  {
    assert x == (x / y) * y + x % y && 0 <= x % y < y;
    MulStep(x / y, y);
  }

  /** A multiple of `y` leaves no remainder. */
  lemma DivMulExact(q: nat, y: nat)
    requires y > 0
    ensures (q * y) % y == 0
  {
    var x := q * y;
    var d, r := x / y, x % y;
    assert x == d * y + r && 0 <= r < y;
    MulSub(y, q, d);
    if q > d {
      MulMono(y, 1, q - d);
    } else if q < d {
      MulSub(y, d, q);
      MulMono(y, 1, d - q);
    }
  }

  /**
   * A Java `int` result: the exact value `x` reduced to the low 32 bits and
   * read as two's complement. It differs from `x` by a multiple of 2^32.
   */
  function Wrap32(x: int): (r: int)
    ensures -0x8000_0000 <= r < 0x8000_0000
    ensures (x - r) % 0x1_0000_0000 == 0
    ensures -0x8000_0000 <= x < 0x8000_0000 ==> r == x
  {
    var y := x + 0x8000_0000;
    assert y == (y / 0x1_0000_0000) * 0x1_0000_0000 + y % 0x1_0000_0000;
    y % 0x1_0000_0000 - 0x8000_0000
  }
}
