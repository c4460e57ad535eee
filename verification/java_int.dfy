/** Java's 32-bit two's-complement `int`: its range, the wrap-around of `+`,
    and the `/` operator, which truncates toward zero. */
module JavaInt {

  const MIN: int := -0x8000_0000
  const MAX: int := 0x7fff_ffff
  const MODULUS: int := 0x1_0000_0000

  type Int32 = x: int | MIN <= x <= MAX

  /** The int that Java holds after an arithmetic result x overflows. */
  function Wrap(x: int): (r: Int32)
    ensures (r - x) % MODULUS == 0
    ensures MIN <= x <= MAX ==> r == x
  {
    (x - MIN) % MODULUS + MIN
  }

  /** Two values congruent modulo 2^32 wrap to the same int. */
  lemma WrapCongruent(x: int, y: int)
    requires (x - y) % MODULUS == 0
    ensures Wrap(x) == Wrap(y)
  {
    var q := (x - y) / MODULUS;
    assert x - MIN == (y - MIN) + q * MODULUS;
    ModMultiple(y - MIN, q);
  }

  lemma {:induction false} ModMultiple(a: int, q: int)
    ensures (a + q * MODULUS) % MODULUS == a % MODULUS
    decreases Abs(q)
  {
    if q > 0 {
      ModMultiple(a, q - 1);
      assert a + q * MODULUS == (a + (q - 1) * MODULUS) + MODULUS;
    } else if q < 0 {
      ModMultiple(a, q + 1);
      assert a + q * MODULUS == (a + (q + 1) * MODULUS) - MODULUS;
    }
  }

  /** Adding with wrap-around at every step is the same as adding exactly
      and wrapping once at the end. */
  lemma WrapAdd(a: int, b: int)
    ensures Wrap(Wrap(a) + b) == Wrap(a + b)
  {
    WrapCongruent(Wrap(a) + b, a + b);
  }

  /** Java's `a / b` on ints: the quotient rounded toward zero. */
  function TruncDiv(a: int, b: int): (q: int)
    requires b != 0
    ensures a >= 0 && b > 0 ==> q == a / b
    ensures b > 0 && a >= 0 ==> q * b <= a < q * b + b
    ensures b > 0 && a < 0 ==> q * b - b < a <= q * b
  {
    if (a >= 0) == (b >= 0) then Abs(a) / Abs(b) else -(Abs(a) / Abs(b))
  }

  function Abs(x: int): nat { if x < 0 then -x else x }
}
