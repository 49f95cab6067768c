/** Java `int` arithmetic written out over Dafny's unbounded integers. */
module JavaInt {

  const IntMin: int := -0x8000_0000
  const IntMax: int := 0x7fff_ffff

  predicate IsInt32(x: int) {
    IntMin <= x <= IntMax
  }

  /** Two's-complement wrap-around of a mathematical integer into the `int` range. */
  function Wrap32(x: int): (r: int)
    ensures IsInt32(r)
    ensures IsInt32(x) ==> r == x
    ensures (r - x) % 0x1_0000_0000 == 0
  {
    var m := x % 0x1_0000_0000;
    if m <= IntMax then m else m - 0x1_0000_0000
  }

  /** Java's `/` on `int`: the quotient is truncated toward zero (Dafny's `/` is Euclidean). */
  function Div(a: int, b: int): (q: int)
    requires b > 0
    ensures a >= 0 ==> 0 <= q * b <= a < q * b + b
    ensures a < 0 ==> q <= 0 && a <= q * b < a + b
  {
    if a >= 0 then
      Quotient(a, b);
      a / b
    else
      Quotient(-a, b);
      -((-a) / b)
  }

  /** For `n >= 0` the quotient times `b` lies within `b` below `n`, and so does its
      negation above `-n`. */
  lemma Quotient(n: int, b: int)
    requires n >= 0 && b > 0
    ensures 0 <= n / b && 0 <= (n / b) * b <= n < (n / b) * b + b
    ensures -n <= -(n / b) * b < -n + b
  {
    var d, r := n / b, n % b;
    assert n == d * b + r && 0 <= r < b;
    assert -d * b == -(d * b);
  }

  /** `Math.ceil((double) a / b)` for non-negative `a` and positive `b`, both Java `int`s.
      The double quotient of two `int`s is close enough to the rational one that the
      ceiling is exact. */
  function CeilDiv(a: nat, b: int): (q: nat)
    requires b > 0
    ensures q * b >= a
    ensures (q - 1) * b < a || q == 0
  {
    (a + b - 1) / b
  }
}
