/** Rust's `i32` and the six operators `operate` applies to it. Dafny's
    integers are unbounded and its `/` and `%` are Euclidean, so the width,
    the wrap-around and the truncating division are written out here. */
module Arith {

  const MIN: int := -0x8000_0000
  const MAX: int := 0x7FFF_FFFF

  /** A two's-complement 32-bit signed integer. */
  type Int32 = x: int | -0x8000_0000 <= x <= 0x7FFF_FFFF

  predicate InRange(v: int) {
    MIN <= v <= MAX
  }

  function Abs(v: int): (r: nat) {
    if v < 0 then -v else v
  }

  /** The value an unchecked (release-build) `+`, `-` or `*` leaves in an
      `i32`: the one congruent to `v` modulo 2^32. */
  function Wrap(v: int): (r: Int32)
    ensures (v - r) % 0x1_0000_0000 == 0
    ensures InRange(v) ==> r == v
  {
    (v - MIN) % 0x1_0000_0000 + MIN
  }

  /** Rust's `/`: the quotient rounded toward zero. */
  function TruncDiv(x: int, y: int): (q: int)
    requires y != 0
    ensures Abs(q) * Abs(y) <= Abs(x) < Abs(q) * Abs(y) + Abs(y)
    ensures q == 0 || ((q < 0) <==> ((x < 0) != (y < 0)))
  {
    var n := Abs(x) / Abs(y);
    DivBounds(Abs(x), Abs(y));
    if (x < 0) == (y < 0) then n else -n
  }

  lemma DivBounds(a: nat, b: nat)
    requires b > 0
    ensures (a / b) * b <= a < (a / b) * b + b
  {
    assert a == (a / b) * b + a % b;
  }

  /** Rust's `%`: what is left after TruncDiv, with the sign of `x`. */
  function TruncRem(x: int, y: int): (r: int)
    requires y != 0
    ensures x == TruncDiv(x, y) * y + r
    ensures Abs(r) < Abs(y)
    ensures r == 0 || ((r < 0) <==> (x < 0))
  {
    var q := TruncDiv(x, y);
    assert Abs(q * y) == Abs(q) * Abs(y);
    x - q * y
  }

  /** On `i32` operands, `/` and `%` stay in range except for `MIN` and `-1`. */
  lemma DivisionInRange(x: Int32, y: Int32)
    requires y != 0 && !(x == MIN && y == -1)
    ensures InRange(TruncDiv(x, y)) && InRange(TruncRem(x, y))
  {
    var q := TruncDiv(x, y);
    if q != 0 {
      MulAtLeast(Abs(q), Abs(y));
      if Abs(y) > 1 {
        MulAtLeast(Abs(q), Abs(y) - 1);
        assert Abs(q) * Abs(y) == Abs(q) + Abs(q) * (Abs(y) - 1);
      }
    }
  }

  /** 2 to the power `k`. */
  function Pow2(k: nat): (p: nat)
    ensures p >= 1
  {
    if k == 0 then 1 else 2 * Pow2(k - 1)
  }

  lemma Pow2Of32()
    ensures Pow2(32) == 0x1_0000_0000
  {
    assert Pow2(8) == 0x100;
    assert Pow2(16) == 0x1_0000;
    assert Pow2(24) == 0x100_0000;
  }

  /** Exclusive or of the low `k` bits of `a` and `b`. */
  function XorBits(a: nat, b: nat, k: nat): (r: nat)
    ensures r < Pow2(k)
  {
    if k == 0 then 0
    else (if a % 2 != b % 2 then 1 else 0) + 2 * XorBits(a / 2, b / 2, k - 1)
  }

  /** The low `k` bits of `a`. */
  function LowBits(a: nat, k: nat): (r: nat) {
    if k == 0 then 0 else a % 2 + 2 * LowBits(a / 2, k - 1)
  }

  lemma {:induction false} LowBitsOfSmall(a: nat, k: nat)
    requires a < Pow2(k)
    ensures LowBits(a, k) == a
  {
    if k > 0 {
      LowBitsOfSmall(a / 2, k - 1);
    }
  }

  /** The bit pattern of an `i32`, read as an unsigned number. */
  function Unsigned(x: Int32): (u: nat)
    ensures u < 0x1_0000_0000
    ensures (u - x) % 0x1_0000_0000 == 0
  {
    if x < 0 then x + 0x1_0000_0000 else x
  }

  /** The `i32` whose bit pattern, read unsigned, is `u`. */
  function Signed(u: nat): (x: Int32)
    requires u < 0x1_0000_0000
    ensures Unsigned(x) == u
  {
    if u <= MAX then u else u - 0x1_0000_0000
  }

  /** Rust's `^` on `i32`: exclusive or of the two bit patterns. It is zero
      exactly for equal operands, and its sign bit is the exclusive or of
      theirs. */
  function Xor(x: Int32, y: Int32): (r: Int32)
    ensures r == 0 <==> x == y
    ensures (r < 0) <==> ((x < 0) != (y < 0))
  {
    Pow2Of32();
    var a, b := Unsigned(x), Unsigned(y);
    XorZero(x, y);
    XorSign(x, y);
    Signed(XorBits(a, b, 32))
  }

  lemma XorZero(x: Int32, y: Int32)
    ensures XorBits(Unsigned(x), Unsigned(y), 32) == 0 <==> x == y
  {
    var a, b := Unsigned(x), Unsigned(y);
    Pow2Of32();
    XorBitsZeroIff(a, b, 32);
    LowBitsOfSmall(a, 32);
    LowBitsOfSmall(b, 32);
    assert a == b ==> x == y;
  }

  lemma XorSign(x: Int32, y: Int32)
    ensures XorBits(Unsigned(x), Unsigned(y), 32) >= 0x8000_0000 <==> ((x < 0) != (y < 0))
  {
    var a, b := Unsigned(x), Unsigned(y);
    Pow2Of32();
    assert Pow2(31) == 0x8000_0000;
    XorBitsTop(a, b, 31);
    UnsignedTop(x);
    UnsignedTop(y);
  }

  /** The top bit of an `i32`'s pattern is set exactly for negative values. */
  lemma UnsignedTop(x: Int32)
    ensures (Unsigned(x) / 0x8000_0000) % 2 == 1 <==> x < 0
  {
    if x < 0 {
      assert Unsigned(x) / 0x8000_0000 == 1;
    } else {
      assert Unsigned(x) / 0x8000_0000 == 0;
    }
  }

  /** The exclusive or of the low `k` bits is zero exactly when those bits
      agree. */
  lemma {:induction false} XorBitsZeroIff(a: nat, b: nat, k: nat)
    ensures XorBits(a, b, k) == 0 <==> LowBits(a, k) == LowBits(b, k)
  {
    if k > 0 {
      XorBitsZeroIff(a / 2, b / 2, k - 1);
    }
  }

  /** Bit `k` of the exclusive or is set exactly when bit `k` of the operands
      differs. */
  lemma {:induction false} XorBitsTop(a: nat, b: nat, k: nat)
    ensures XorBits(a, b, k + 1) >= Pow2(k) <==> (a / Pow2(k)) % 2 != (b / Pow2(k)) % 2
  {
    if k > 0 {
      XorBitsTop(a / 2, b / 2, k - 1);
      HalfDiv(a, Pow2(k - 1));
      HalfDiv(b, Pow2(k - 1));
    }
  }

  lemma HalfDiv(a: nat, p: nat)
    requires p > 0
    ensures a / 2 / p == a / (2 * p)
  {
    var q, r := a / (2 * p), a % (2 * p);
    var h := r / 2;
    assert a == (2 * p) * q + r;
    assert r == 2 * h + r % 2;
    assert a == 2 * (p * q + h) + r % 2;
    DivUnique(a, 2, p * q + h, r % 2);
    DivUnique(p * q + h, p, q, h);
  }

  /** The quotient is the only q with a remainder in `[0, d)`. */
  lemma DivUnique(n: int, d: int, q: int, r: int)
    requires d > 0 && 0 <= r < d && n == d * q + r
    ensures n / d == q
  {
    var q', r' := n / d, n % d;
    assert n == d * q' + r';
    if q > q' {
      MulAtLeast(d, q - q');
    } else if q < q' {
      MulAtLeast(d, q' - q);
    }
  }

  lemma MulAtLeast(d: int, k: int)
    requires d > 0 && k >= 1
    ensures d * k >= d
  {
  }

  /** Xoring twice with the same `b` gives back the low `k` bits of `a`. */
  lemma {:induction false} XorBitsTwice(a: nat, b: nat, k: nat)
    ensures XorBits(XorBits(a, b, k), b, k) == LowBits(a, k)
  {
    if k > 0 {
      var r := XorBits(a, b, k);
      var bit := if a % 2 != b % 2 then 1 else 0;
      assert r == bit + 2 * XorBits(a / 2, b / 2, k - 1);
      assert r % 2 == bit && r / 2 == XorBits(a / 2, b / 2, k - 1);
      XorBitsTwice(a / 2, b / 2, k - 1);
    }
  }

  lemma {:induction false} XorBitsCommutes(a: nat, b: nat, k: nat)
    ensures XorBits(a, b, k) == XorBits(b, a, k)
  {
    if k > 0 {
      XorBitsCommutes(a / 2, b / 2, k - 1);
    }
  }

  /** `^` commutes and undoes itself. */
  lemma XorProperties(x: Int32, y: Int32)
    ensures Xor(Xor(x, y), y) == x
    ensures Xor(x, y) == Xor(y, x)
  {
    Pow2Of32();
    XorBitsTwice(Unsigned(x), Unsigned(y), 32);
    LowBitsOfSmall(Unsigned(x), 32);
    XorBitsCommutes(Unsigned(x), Unsigned(y), 32);
  }

  /** `5 ^ 3 == 6`. */
  lemma XorExample()
    ensures Xor(5, 3) == 6
  {
    assert XorBits(0, 0, 29) == 0 by { XorBitsZero(29); }
    assert XorBits(5, 3, 32) == 2 * XorBits(2, 1, 31);
    assert XorBits(2, 1, 31) == 1 + 2 * XorBits(1, 0, 30);
    assert XorBits(1, 0, 30) == 1 + 2 * XorBits(0, 0, 29);
  }

  lemma {:induction false} XorBitsZero(k: nat)
    ensures XorBits(0, 0, k) == 0
  {
    if k > 0 {
      XorBitsZero(k - 1);
    }
  }
}
