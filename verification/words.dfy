/** 64-bit words as the C code uses them: unsigned values with wrap-around, and the
    signed reading the `Value` union gives of the same bits. */
module Words {
  const TWO63: int := 0x8000_0000_0000_0000
  const TWO64: int := 0x1_0000_0000_0000_0000

  type Word = w: int | 0 <= w < 0x1_0000_0000_0000_0000

  /** A signed 16-bit branch displacement. */
  type Displacement = d: int | -0x8000 <= d < 0x8000

  function Wrap(x: int): Word { x % TWO64 }

  function Signed(w: Word): int { if w < TWO63 then w else w - TWO64 }

  function Pow2(n: nat): (p: nat)
    ensures p >= 1
  {
    if n == 0 then 1 else 2 * Pow2(n - 1)
  }

  /** Division rounding toward zero, as C divides. */
  function TruncDiv(a: int, b: int): int
    requires b != 0
  {
    if a >= 0 then a / b else -((-a) / b)
  }

  datatype Gate = GateAnd | GateOr | GateXor

  function Bit(g: Gate, x: int, y: int): int {
    match g
    case GateAnd => if x == 1 && y == 1 then 1 else 0
    case GateOr => if x == 1 || y == 1 then 1 else 0
    case GateXor => if x != y then 1 else 0
  }

  /** The low n bits of x and y combined bit by bit. */
  function Bitwise(g: Gate, x: nat, y: nat, n: nat): (r: nat)
    ensures r < Pow2(n)
  {
    if n == 0 then 0 else Bit(g, x % 2, y % 2) + 2 * Bitwise(g, x / 2, y / 2, n - 1)
  }

  lemma Pow2Add(m: nat, n: nat)
    ensures Pow2(m + n) == Pow2(m) * Pow2(n)
  {
    if m != 0 {
      Pow2Add(m - 1, n);
      assert Pow2(m + n) == 2 * (Pow2(m - 1) * Pow2(n)) == Pow2(m) * Pow2(n);
    }
  }

  lemma Pow2At64()
    ensures Pow2(64) == TWO64 && Pow2(63) == TWO63
  {
    assert Pow2(8) == 256;
    Pow2Add(8, 8);
    Pow2Add(16, 16);
    Pow2Add(32, 32);
    assert Pow2(64) == TWO64;
  }

  lemma {:induction false} Pow2Mono(m: nat, n: nat)
    requires m <= n
    ensures Pow2(m) <= Pow2(n)
  {
    if m < n { Pow2Mono(m, n - 1); }
  }

  /** Wrapping is a ring homomorphism: wrapping early or late gives the same word. */
  lemma WrapRing(x: int, y: int)
    ensures Wrap(Wrap(x) + y) == Wrap(x + y)
    ensures Wrap(Wrap(x) - Wrap(y)) == Wrap(x - y)
    ensures Wrap(Wrap(x) + Wrap(y)) == Wrap(x + y)
    ensures Wrap(-(Wrap(x) as int)) == Wrap(-x)
    ensures Wrap(Wrap(x) * Wrap(y)) == Wrap(x * y)
  {
    var a, b := x / TWO64, y / TWO64;
    assert x == a * TWO64 + Wrap(x) && y == b * TWO64 + Wrap(y);
    WrapShift(Wrap(x) + y, a);
    WrapShift(Wrap(x) - Wrap(y), a - b);
    WrapShift(Wrap(x) + Wrap(y), a + b);
    WrapShift(-(Wrap(x) as int), -a);
    var k := a * b * TWO64 + a * Wrap(y) + b * Wrap(x);
    calc {
      x * y;
      (a * TWO64 + Wrap(x)) * (b * TWO64 + Wrap(y));
      Wrap(x) * Wrap(y) + k * TWO64;
    }
    WrapShift(Wrap(x) * Wrap(y), k);
  }

  lemma WrapSum(x: int, y: int)
    ensures Wrap(Wrap(x) + y) == Wrap(x + y)
  {
    WrapShift(Wrap(x) + y, x / TWO64);
  }

  lemma WrapShift(x: int, k: int)
    ensures Wrap(x + k * TWO64) == Wrap(x)
  {
  }

  lemma DivUnique(x: int, m: int, q: int, r: int)
    requires m > 0 && 0 <= r < m && x == q * m + r
    ensures x / m == q && x % m == r
  {
    var d := q - x / m;
    MulOutside(d, m);
    assert d * m == x % m - r;
  }

  lemma MulOutside(d: int, m: int)
    requires m > 0
    ensures d >= 1 ==> d * m >= m
    ensures d <= -1 ==> d * m <= -m
  {
  }

  lemma QuotientBound(x: nat, m: nat)
    requires m > 0
    ensures 0 <= x / m <= x && 0 <= x % m <= x
  {
    var q := x / m;
    assert x == m * q + x % m;
    if q < 0 { MulOutside(q, m); }
    MulNonNegative(q, m - 1);
    assert m * q == q + q * (m - 1);
  }

  lemma MulNonNegative(x: nat, y: nat)
    ensures x * y >= 0
  {
  }
}
