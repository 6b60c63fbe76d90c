/** Java's 32-bit `int`: two's-complement values, arithmetic that silently
    wraps modulo 2^32, and `/` that truncates toward zero. */
module JavaInt {

  const MIN: int := -0x8000_0000
  const MAX: int := 0x7FFF_FFFF
  const MODULUS: int := 0x1_0000_0000

  predicate InRange(x: int) { MIN <= x <= MAX }

  /** The values a Java `int` can hold. */
  type Int32 = x: int | MIN <= x <= MAX

  function Abs(x: int): nat { if x < 0 then -x else x }

  /** The int a Java narrowing keeps of the mathematical integer `x`: the
      low 32 bits read as two's complement. */
  function Wrap(x: int): (r: Int32)
    ensures (x - r) % MODULUS == 0
    ensures InRange(x) ==> r == x
  {
    (x - MIN) % MODULUS + MIN
  }

  /** `Wrap(x)` is the ONLY int32 congruent to `x` modulo 2^32. */
  lemma WrapUnique(x: int, y: int)
    requires InRange(y) && (x - y) % MODULUS == 0
    ensures Wrap(x) == y
  {
    var r := Wrap(x);
    var k1 := (x - r) / MODULUS;
    var k2 := (x - y) / MODULUS;
    assert x - r == MODULUS * k1;
    assert x - y == MODULUS * k2;
    assert y - r == MODULUS * (k1 - k2);
    assert -MODULUS < y - r < MODULUS;
  }

  /** Congruent integers wrap to the same int32. */
  lemma WrapCongruent(x: int, y: int, k: int)
    requires x - y == MODULUS * k
    ensures Wrap(x) == Wrap(y)
  {
    var r := Wrap(y);
    var j := (y - r) / MODULUS;
    assert y - r == MODULUS * j;
    assert x - r == MODULUS * (k + j);
    WrapUnique(x, r);
  }

  /** Wrapping an intermediate value before multiplying by `m` and adding `d`
      does not change the wrapped outcome: Java may wrap after every step. */
  lemma WrapMulAdd(a: int, m: int, d: int)
    ensures Wrap(Wrap(a) * m + d) == Wrap(a * m + d)
  {
    var w := Wrap(a);
    var k := (a - w) / MODULUS;
    assert a - w == MODULUS * k;
    assert (a * m + d) - (w * m + d) == (a - w) * m;
    assert (a - w) * m == MODULUS * (k * m);
    WrapCongruent(a * m + d, w * m + d, k * m);
  }

  /** The magnitude of a product is the product of the magnitudes. */
  lemma AbsMul(x: int, y: int)
    ensures Abs(x * y) == Abs(x) * Abs(y)
  {
    if x < 0 && y < 0 {
      assert x * y == (-x) * (-y);
    } else if x < 0 {
      assert x * y == -((-x) * y);
    } else if y < 0 {
      assert x * y == -(x * (-y));
    }
  }

  /** Java's `a / b` on ints before narrowing: the quotient rounded toward
      zero. Its magnitude is the quotient of the magnitudes, and it is
      positive or negative exactly when `|a| >= |b|` and the signs agree or
      differ. */
  function TruncDiv(a: int, b: int): (q: int)
    requires b != 0
    ensures Abs(q) == Abs(a) / Abs(b)
    ensures q > 0 <==> (Abs(a) >= Abs(b) && (a < 0) == (b < 0))
    ensures q < 0 <==> (Abs(a) >= Abs(b) && (a < 0) != (b < 0))
  {
    var n := Abs(a) / Abs(b);
    DivPositive(Abs(a), Abs(b));
    if (a < 0) == (b < 0) then n else -n
  }

  /** A natural quotient is positive exactly when the dividend reaches the
      divisor. */
  lemma DivPositive(x: nat, y: nat)
    requires y > 0
    ensures x / y > 0 <==> x >= y
  {
    DivBounds(x, y);
  }

  /** Natural division rounds down: `n * y <= x < n * y + y` for `n = x / y`. */
  lemma DivBounds(x: nat, y: nat)
    requires y > 0
    ensures (x / y) * y <= x < (x / y) * y + y
  {
    var n := x / y;
    assert x == y * n + x % y;
  }

  /** `TruncDiv` is Java's integer division as the language defines it: the
      quotient `q` is the integer of largest magnitude with `|q * b| <= |a|`,
      so `|a|` falls short of `|q * b| + |b|`. */
  lemma TruncDivIsJavaDivision(a: int, b: int)
    requires b != 0
    ensures Abs(TruncDiv(a, b) * b) <= Abs(a) < Abs(TruncDiv(a, b) * b) + Abs(b)
  {
    var q := TruncDiv(a, b);
    AbsMul(q, b);
    DivBounds(Abs(a), Abs(b));
  }

  /** A quotient is no larger than its dividend; only a divisor of 1 keeps
      it equal to a positive dividend. */
  lemma QuotientAtMostDividend(x: nat, y: nat)
    requires y > 0
    ensures x / y <= x
    ensures x > 0 && x / y == x ==> y == 1
  {
    var n := x / y;
    DivBounds(x, y);
    assert n * y == n * (y - 1) + n;
    if y >= 2 {
      assert n * (y - 1) >= n;
    }
  }

  /** Java's `int` division `a / b` for nonzero `b`: the truncated quotient,
      narrowed. */
  function Div(a: Int32, b: Int32): (r: Int32)
    requires b != 0
    ensures (TruncDiv(a, b) - r) % MODULUS == 0
  {
    Wrap(TruncDiv(a, b))
  }

  /** The one int32 division whose true quotient does not fit is
      `MIN / -1`, and Java's result for it wraps back to `MIN`. */
  lemma DivOverflowsOnlyAtMinByMinusOne(a: Int32, b: Int32)
    requires b != 0
    ensures InRange(TruncDiv(a, b)) <==> !(a == MIN && b == -1)
    ensures InRange(TruncDiv(a, b)) ==> Div(a, b) == TruncDiv(a, b)
    ensures a == MIN && b == -1 ==> Div(a, b) == MIN
  {
    var q := TruncDiv(a, b);
    QuotientAtMostDividend(Abs(a), Abs(b));
    if Abs(q) == -MIN {
      assert a == MIN && Abs(b) == 1;
    }
  }
}
