/**
 * Java's 32-bit `int`: the range of values, and the wrap-around of `+` and `*`
 * and the truncating `/` where the dialog's arithmetic depends on them.
 */
module JavaInt {
  const MinValue: int := -0x8000_0000
  /** Integer.MAX_VALUE; the row list also uses it to mean "no upper bound". */
  const MaxValue: int := 0x7fff_ffff
  const Modulus: int := 0x1_0000_0000

  type Int32 = x: int | MinValue <= x <= MaxValue

  /** Reduces a mathematical integer to the Java int with the same low 32 bits. */
  function Wrap(x: int): (r: Int32)
    ensures MinValue <= x <= MaxValue ==> r == x
    ensures (x - r) % Modulus == 0
  {
    (x - MinValue) % Modulus + MinValue
  }

  /** Java `a + b` on ints: the exact sum when it fits, otherwise the int with the same low 32 bits. */
  function Add(a: Int32, b: Int32): (r: Int32)
    ensures MinValue <= a + b <= MaxValue ==> r == a + b
    ensures (a + b - r) % Modulus == 0
  {
    if a + b > MaxValue then a + b - Modulus
    else if a + b < MinValue then a + b + Modulus
    else a + b
  }

  /** Two ints whose difference is a multiple of 2^32 are equal. */
  lemma {:induction false} CongruentInt32sEqual(x: Int32, y: Int32)
    requires (x - y) % Modulus == 0
    ensures x == y
  {
    assert -Modulus < x - y < Modulus;
  }

  /** Addition on ints is the exact sum reduced by `Wrap`. */
  lemma AddIsWrappedSum(a: Int32, b: Int32)
    ensures Add(a, b) == Wrap(a + b)
  {
    var r, w := Add(a, b), Wrap(a + b);
    assert (r - w) % Modulus == 0 by {
      assert r - w == (a + b - w) - (a + b - r);
    }
    CongruentInt32sEqual(r, w);
  }

  /** Java `a * b` on ints. */
  function Mul(a: Int32, b: Int32): (r: Int32)
    ensures MinValue <= a * b <= MaxValue ==> r == a * b
  {
    Wrap(a * b)
  }

  /** Java `a / b` for a positive divisor: the quotient is rounded toward zero. */
  function DivByPositive(a: Int32, b: Int32): (q: Int32)
    requires b > 0
    ensures a >= 0 ==> 0 <= q <= a
    ensures a < 0 ==> a <= q <= 0
    ensures a >= 0 ==> q * b <= a < q * b + b
    ensures a < 0 ==> q * b - b < a <= q * b
  {
    if a >= 0 then
      QuotientBound(a, b);
      a / b
    else
      QuotientBound(-(a as int), b);
      -((-(a as int)) / b)
  }

  /** `-7 / 2` is -3 in Java, where Dafny's Euclidean division gives -4. */
  lemma DivTruncatesNegative()
    ensures DivByPositive(-7, 2) == -3 && -7 / 2 == -4
  {
    assert 7 / 2 == 3;
  }

  /**
   * Euclidean division of a natural number by a positive one does not grow it,
   * and brackets it between two neighbouring multiples of the divisor.
   */
  lemma QuotientBound(n: nat, d: int)
    requires d > 0
    ensures 0 <= n / d <= n
    ensures n / d * d <= n < n / d * d + d
  {
    ProductAtLeast(n / d, d);
    assert n == n / d * d + n % d;
  }

  lemma ProductAtLeast(q: int, d: int)
    requires q >= 0 && d >= 1
    ensures q * d >= q
  {
  }

  /** Math.max on ints. */
  function Max(a: Int32, b: Int32): (r: Int32)
    ensures r >= a && r >= b && (r == a || r == b)
  {
    if a >= b then a else b
  }
}
