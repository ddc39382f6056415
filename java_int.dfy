/** Java's 32-bit `int` arithmetic, written out over Dafny's unbounded integers.
    Only the operators that the image geometry of `Util.bitmapToTensor` uses are
    given: multiplication, subtraction, division and the shift right by one. */
module JavaInt {
  import opened Arithmetic

  const MinInt: int := -0x8000_0000
  const MaxInt: int := 0x7fff_ffff
  const Modulus: int := 0x1_0000_0000

  /** The values a Java `int` can hold. */
  predicate InRange(x: int) {
    MinInt <= x <= MaxInt
  }

  /** Two's-complement wrap-around: the unique `int` value congruent to `x`
      modulo 2^32. */
  function Wrap(x: int): (r: int)
    ensures InRange(r)
    ensures (x - r) % Modulus == 0
    ensures InRange(x) ==> r == x
  {
    (x - MinInt) % Modulus + MinInt
  }

  /** Java `a * b` on two `int` operands. */
  function Mul(a: int, b: int): (r: int)
    ensures InRange(r)
    ensures InRange(a * b) ==> r == a * b
  {
    Wrap(a * b)
  }

  /** Java `a - b` on two `int` operands. */
  function Sub(a: int, b: int): (r: int)
    ensures InRange(r)
    ensures InRange(a - b) ==> r == a - b
  {
    Wrap(a - b)
  }

  /** Java `a / b` on two `int` operands: the quotient is rounded toward zero
      (Dafny's own `/` is Euclidean), and `MinInt / -1` wraps to `MinInt`. */
  function Div(a: int, b: int): (r: int)
    requires b != 0
    ensures InRange(r)
    ensures InRange(a) && 0 <= a && 0 < b ==> 0 <= r && r * b <= a < r * b + b
    ensures InRange(a) && a < 0 && 0 < b ==> r <= 0 && r * b - b < a <= r * b
  {
    var n, d := if a < 0 then -a else a, if b < 0 then -b else b;
    var q := n / d;
    FloorQuotient(n, d);
    assert InRange(a) ==> 0 <= q <= n <= -MinInt;
    Wrap(if (a < 0) == (b < 0) then q else -q)
  }

  /** Java `a >> 1`: an arithmetic shift, that is the floor of half of `a`. */
  function ShiftRightOne(a: int): (r: int)
    ensures 2 * r <= a <= 2 * r + 1
  {
    a / 2
  }
}
