/** Java `int` arithmetic: 32-bit two's complement values and the operators the interpreter applies. */
module Int32 {

  const MIN: int := -0x8000_0000
  const MAX: int := 0x7fff_ffff
  const MODULUS: int := 0x1_0000_0000

  predicate InRange(x: int) { MIN <= x <= MAX }

  type Int32 = x: int | -0x8000_0000 <= x <= 0x7fff_ffff

  function Abs(x: int): nat { if x < 0 then -x else x }

  /** Narrowing of an exact result to `int`: the value congruent to `x` modulo 2^32 in range. */
  function Wrap(x: int): (r: Int32)
    ensures (r - x) % MODULUS == 0
    ensures InRange(x) ==> r == x
  {
    var m := x % MODULUS;
    if m > MAX then m - MODULUS else m
  }

  /** There is only one `int` congruent to a given integer, so Wrap is the narrowing. */
  lemma WrapUnique(x: int, y: int)
    requires InRange(y) && (y - x) % MODULUS == 0
    ensures Wrap(x) == y
  {
    var w := Wrap(x);
    var d := w - y;
    assert d % MODULUS == 0 by {
      assert (w - x) % MODULUS == 0;
      assert w - y == (w - x) - (y - x);
      assert (w - x) == MODULUS * ((w - x) / MODULUS);
      assert (y - x) == MODULUS * ((y - x) / MODULUS);
      assert d == MODULUS * ((w - x) / MODULUS - (y - x) / MODULUS);
    }
    assert -MODULUS < d < MODULUS;
    assert d == MODULUS * (d / MODULUS);
  }

  /** Java's `/` on `int` before narrowing: the quotient rounded toward zero. */
  function TruncDiv(a: int, b: int): int
    requires b != 0
  {
    var q := Abs(a) / Abs(b);
    if (a < 0) == (b < 0) then q else -q
  }

  /** Java's `%` on `int`: the remainder takes the sign of the dividend. */
  function TruncRem(a: int, b: int): (r: int)
    requires b != 0
    ensures Abs(r) <= Abs(a)
    ensures InRange(a) ==> InRange(r)
  {
    Euclid(Abs(a), Abs(b));
    var m := Abs(a) % Abs(b);
    if a < 0 then -m else m
  }

  /** Euclidean division of naturals as Dafny defines it, with the bounds used below. */
  lemma Euclid(x: int, y: int)
    requires x >= 0 && y > 0
    ensures x == y * (x / y) + x % y
    ensures 0 <= x % y < y && x % y <= x
    ensures 0 <= x / y && 0 <= y * (x / y) <= x
  {
  }

  /** Truncating division and remainder reassemble the dividend, the remainder is smaller than
      the divisor and has the dividend's sign, and the quotient never overshoots. */
  lemma DivisionIdentity(a: int, b: int)
    requires b != 0
    ensures a == b * TruncDiv(a, b) + TruncRem(a, b)
    ensures Abs(TruncRem(a, b)) < Abs(b)
    ensures TruncRem(a, b) == 0 || (TruncRem(a, b) < 0 <==> a < 0)
    ensures Abs(b * TruncDiv(a, b)) <= Abs(a)
  {
    var x: int, y: int := Abs(a), Abs(b);
    Euclid(x, y);
    var q: int, m: int := x / y, x % y;
    var p := y * q;
    if a < 0 && b < 0 {
      assert TruncDiv(a, b) == q && b == -y;
      assert b * TruncDiv(a, b) == -p;
    } else if a < 0 {
      assert TruncDiv(a, b) == -q && b == y;
      assert b * TruncDiv(a, b) == -p;
    } else if b < 0 {
      assert TruncDiv(a, b) == -q && b == -y;
      assert b * TruncDiv(a, b) == p;
    } else {
      assert TruncDiv(a, b) == q && b == y;
      assert b * TruncDiv(a, b) == p;
    }
  }

  function Pow2(k: nat): (p: nat)
    ensures p >= 1
  {
    if k == 0 then 1 else 2 * Pow2(k - 1)
  }

  lemma {:induction false} Pow2Add(a: nat, b: nat)
    ensures Pow2(a + b) == Pow2(a) * Pow2(b)
  {
    if a > 0 {
      Pow2Add(a - 1, b);
    }
  }

  /** The two powers the interpreter's operators use: the `lui` shift and the word size. */
  lemma Pow2Values()
    ensures Pow2(16) == 65536 && Pow2(32) == MODULUS
  {
    assert Pow2(4) == 16;
    Pow2Add(4, 4);
    Pow2Add(8, 8);
    Pow2Add(16, 16);
  }

  datatype BitOp = AndOp | OrOp | XorOp

  function Bit(op: BitOp, x: nat, y: nat): nat
    requires x < 2 && y < 2
  {
    match op
    case AndOp => if x == 1 && y == 1 then 1 else 0
    case OrOp => if x == 1 || y == 1 then 1 else 0
    case XorOp => if x != y then 1 else 0
  }

  /** `op` applied bit by bit to the low `k` bits of `x` and `y`. */
  function Bitwise(op: BitOp, x: nat, y: nat, k: nat): (r: nat)
    ensures r < Pow2(k)
  {
    if k == 0 then 0
    else 2 * Bitwise(op, x / 2, y / 2, k - 1) + Bit(op, x % 2, y % 2)
  }

  /** Java `&`, `|` and `^` on `int`: the operator applied to the 32-bit encodings. */
  function Bitwise32(op: BitOp, a: Int32, b: Int32): Int32 {
    Wrap(Bitwise(op, Unsigned(a), Unsigned(b), 32))
  }

  /** Java `a << n`: only the low five bits of the shift count are used. */
  function Shl(a: Int32, n: int): (r: Int32)
    ensures (r - a * Pow2(n % 32)) % MODULUS == 0
  {
    Wrap(a * Pow2(n % 32))
  }

  lemma ScaleMonotone(p: int, q: int)
    requires p >= 1
    ensures q >= 0 ==> p * q >= q
    ensures q <= 0 ==> p * q <= q
  {
    assert p * q - q == (p - 1) * q;
  }

  /** Division by a positive divisor rounds toward negative infinity and moves toward zero. */
  lemma FloorDiv(a: int, p: int)
    requires p >= 1
    ensures p * (a / p) <= a < p * (a / p) + p
    ensures a >= 0 ==> 0 <= a / p <= a
    ensures a < 0 ==> a <= a / p < 0
  {
    var q := a / p;
    assert a == p * q + a % p && 0 <= a % p < p;
    assert p * (q + 1) == p * q + p;
    ScaleMonotone(p, q);
    ScaleMonotone(p, q + 1);
  }

  /** Java `a >> n`: arithmetic shift, the quotient rounded toward negative infinity. */
  function Sar(a: Int32, n: int): (r: Int32)
    ensures r * Pow2(n % 32) <= a < (r + 1) * Pow2(n % 32)
  {
    var p := Pow2(n % 32);
    FloorDiv(a, p);
    a / p
  }

  /** Two's complement bits of `a` read as an unsigned number. */
  function Unsigned(a: Int32): (u: nat)
    ensures u < MODULUS && (u - a) % MODULUS == 0
    ensures a >= 0 ==> u == a
  {
    if a < 0 then a + MODULUS else a
  }

  /** Java `a >>> n`: logical shift, zeros come in from the left. A distance that is a multiple
      of 32 leaves `a` as it is; any other shifts the unsigned bit pattern of `a`, so that the
      result is non-negative even for a negative `a`. */
  function Ushr(a: Int32, n: int): (r: Int32)
    ensures n % 32 == 0 ==> r == a
    ensures n % 32 != 0 ==> r == Unsigned(a) / Pow2(n % 32) && r >= 0
    ensures a >= 0 ==> r == Sar(a, n)
  {
    var p := Pow2(n % 32);
    var u := Unsigned(a);
    FloorDiv(u, p);
    ShiftedFits(u, n % 32);
    WrapUnique(u, a);
    Wrap(u / p)
  }

  /** A logical shift by a distance that is not a multiple of 32 divides the unsigned pattern by
      that power of two, rounding down. */
  lemma UshrBounds(a: Int32, n: int)
    requires n % 32 != 0
    ensures Ushr(a, n) * Pow2(n % 32) <= Unsigned(a) < (Ushr(a, n) + 1) * Pow2(n % 32)
  {
    FloorDiv(Unsigned(a), Pow2(n % 32));
  }

  /** Shifting a 32-bit pattern right by at least one place leaves a non-negative `int`. */
  lemma ShiftedFits(u: nat, k: nat)
    requires u < MODULUS
    ensures k >= 1 ==> u / Pow2(k) <= MAX
  {
    if k >= 1 {
      var p := Pow2(k);
      assert p >= 2 by { assert p == 2 * Pow2(k - 1); }
      FloorDiv(u, p);
      DoubleAtMost(u / p, p);
    }
  }

  lemma DoubleAtMost(q: int, p: int)
    requires q >= 0 && p >= 2
    ensures 2 * q <= p * q
  {
    assert p * q - 2 * q == (p - 2) * q;
  }
}
