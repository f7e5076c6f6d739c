/** Go's integer arithmetic where it differs from Dafny's: `/` and `%`
    truncate toward zero, and `int64` has a range. */
module GoInt {

  const MinInt64: int := -0x8000_0000_0000_0000
  const MaxInt64: int := 0x7FFF_FFFF_FFFF_FFFF

  predicate InInt64(x: int) {
    MinInt64 <= x <= MaxInt64
  }

  /** Go's `a / b`: the quotient truncated toward zero. */
  function Quo(a: int, b: int): (q: int)
    requires b != 0
    ensures b > 0 && a >= 0 ==> q * b <= a < q * b + b
    ensures b > 0 && a < 0 ==> q * b - b < a <= q * b
  {
    var n: nat := if a < 0 then -a else a;
    var d: nat := if b < 0 then -b else b;
    var q := n / d;
    assert q * d <= n < q * d + d;
    if (a < 0) != (b < 0) then -q else q
  }

  /** Go's `a % b`: the remainder takes the sign of `a`. */
  function Rem(a: int, b: int): (r: int)
    requires b != 0
    ensures a == Quo(a, b) * b + r
    ensures b > 0 && a >= 0 ==> 0 <= r < b
    ensures b > 0 && a < 0 ==> -b < r <= 0
  {
    a - Quo(a, b) * b
  }

  /** On non-negative operands Go's division agrees with Dafny's. */
  lemma QuoNonNegative(a: int, b: int)
    requires a >= 0 && b > 0
    ensures Quo(a, b) == a / b && Rem(a, b) == a % b
  {
  }
}
