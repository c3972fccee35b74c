/** 64 x 64 -> 128 bit multiplication in 64-bit wrap-around arithmetic (host-utils.c). */
module HostUtils {

  const H: nat := 0x1_0000_0000
  const W: nat := 0x1_0000_0000_0000_0000
  const WW: nat := 0x1_0000_0000_0000_0000_0000_0000_0000_0000

  type uint64 = x: nat | x < 0x1_0000_0000_0000_0000
  type int64 = x: int | -0x8000_0000_0000_0000 <= x < 0x8000_0000_0000_0000

  function Wrap(x: int): uint64 { x % W }

  /** The unsigned 128-bit number of two halves. */
  function Value(low: uint64, high: uint64): (v: nat)
    ensures v < WW
  {
    low + high * W
  }

  /** The same number read as two's complement. */
  function SignedValue(low: uint64, high: uint64): int {
    if high < 0x8000_0000_0000_0000 then Value(low, high) else Value(low, high) - WW
  }

  /** No other two halves make the same number. */
  lemma HalvesOf(low: uint64, high: uint64)
    ensures low == Value(low, high) % W && high == Value(low, high) / W
  {
    WrapIs(Value(low, high), high, low);
    assert Value(low, high) / W * W + Value(low, high) % W == Value(low, high);
  }

  /** Congruent numbers below the modulus are equal. */
  lemma ModUnique(x: int, y: int, k: int)
    requires 0 <= x < WW && x == y + k * WW
    ensures x == y % WW
  {}

  /** add128: the 128-bit sum, modulo 2^128; the carry out of the low half is detected by
      comparing the wrapped sum with an addend. */
  method Add128(low: uint64, high: uint64, a: uint64, b: uint64) returns (low': uint64, high': uint64)
    ensures Value(low', high') == (Value(low, high) + Value(a, b)) % WW
  {
    low' := Wrap(low + a);
    high' := high;
    if low' < a {
      high' := Wrap(high' + 1);
    }
    high' := Wrap(high' + b);
    SumWraps(low, a);
    SumWraps(high, 1);
    SumWraps(high, b);
    SumWraps(Wrap(high + 1), b);
    ghost var carry := if low + a >= W then 1 else 0;
    ghost var over := if high + carry + b >= W then 1 else 0;
    hide Wrap;
    assert low' == low + a - carry * W;
    assert high' == high + carry + b - over * W;
    ModUnique(Value(low', high'), Value(low, high) + Value(a, b), -over);
  }

  /** A sum of two words exceeds a word by at most one bit, and then comes out below either of them. */
  lemma SumWraps(x: uint64, y: uint64)
    ensures Wrap(x + y) == if x + y >= W then x + y - W else x + y
    ensures Wrap(x + y) < y <==> x + y >= W
  {
    WrapIs(x + y, if x + y >= W then 1 else 0, if x + y >= W then x + y - W else x + y);
  }

  /** neg128: the two's complement, modulo 2^128. */
  method Neg128(low: uint64, high: uint64) returns (low': uint64, high': uint64)
    ensures Value(low', high') == (WW - Value(low, high)) % WW
  {
    low', high' := Add128(W - 1 - low, W - 1 - high, 1, 0);
    assert Value(W - 1 - low, W - 1 - high) == WW - 1 - Value(low, high);
  }

  lemma MulBound(x: nat, y: nat, m: nat, n: nat)
    requires x <= m && y <= n
    ensures x * y <= m * n
  {
    assert x * y <= m * y;
    assert m * y <= m * n;
  }

  /** Schoolbook multiplication in base 2^32. */
  lemma Schoolbook(a1: nat, a0: nat, b1: nat, b0: nat)
    ensures (a1 * H + a0) * (b1 * H + b0) == a0 * b0 + (a0 * b1 + a1 * b0) * H + a1 * b1 * W
  {
    Distribute(a1 * H, a0, b1 * H, b0);
    assert a1 * H * (b1 * H) == a1 * b1 * W;
    assert a1 * H * b0 == a1 * b0 * H;
    assert a0 * (b1 * H) == a0 * b1 * H;
  }

  lemma Distribute(p: int, q: int, r: int, s: int)
    ensures (p + q) * (r + s) == p * r + p * s + q * r + q * s
  {}

  lemma WrapIs(x: int, q: int, r: nat)
    requires x == q * W + r && r < W
    ensures Wrap(x) == r
  {}

  /** A 64-bit product shifted left by 32 falls into the two halves as v << 32 and v >> 32. */
  lemma ShiftedProduct(v: uint64)
    ensures Value(Wrap(v * H), v / H) == v * H
  {
    var q, r := v / H, v % H;
    assert v == q * H + r;
    WrapIs(v * H, q, r * H);
  }

  /** One cross product, shifted into place and added without overflow. */
  method AddShifted(low: uint64, high: uint64, v: uint64) returns (low': uint64, high': uint64)
    requires Value(low, high) + v * H < WW
    ensures Value(low', high') == Value(low, high) + v * H
  {
    ShiftedProduct(v);
    low', high' := Add128(low, high, Wrap(v * H), v / H);
    ModUnique(Value(low, high) + v * H, Value(low, high) + v * H, 0);
  }

  /** mul64: the exact 128-bit product of two unsigned 64-bit numbers. */
  method Mul64(a: uint64, b: uint64) returns (low: uint64, high: uint64)
    ensures Value(low, high) == a * b && low == a * b % W && high == a * b / W
  {
    var a0, a1 := a % H, a / H;
    var b0, b1 := b % H, b / H;
    MulBound(a0, b0, H - 1, H - 1);
    MulBound(a0, b1, H - 1, H - 1);
    MulBound(a1, b0, H - 1, H - 1);
    MulBound(a1, b1, H - 1, H - 1);
    MulBound(a, b, W - 1, W - 1);
    Schoolbook(a1, a0, b1, b0);
    var p00: uint64, p01: uint64, p10: uint64, p11: uint64 := a0 * b0, a0 * b1, a1 * b0, a1 * b1;
    assert a * b == p00 + (p01 + p10) * H + p11 * W;
    low, high := SumProducts(p00, p01, p10, p11);
    HalvesOf(low, high);
  }

  /** The accumulation of the four partial products. */
  method SumProducts(p00: uint64, p01: uint64, p10: uint64, p11: uint64) returns (low: uint64, high: uint64)
    requires p00 + (p01 + p10) * H + p11 * W < WW
    ensures Value(low, high) == p00 + (p01 + p10) * H + p11 * W
  {
    low, high := p00, 0;
    low, high := AddShifted(low, high, p01);
    low, high := AddShifted(low, high, p10);
    WrapIs(high + p11, 0, high + p11);
    high := Wrap(high + p11);
  }

  /** mulu64: the exact 128-bit product of two unsigned 64-bit numbers. */
  method Mulu64(a: uint64, b: uint64) returns (low: uint64, high: uint64)
    ensures Value(low, high) == a * b && low == a * b % W && high == a * b / W
  {
    low, high := Mul64(a, b);
  }

  /** Negation of an int64_t, which leaves the most negative number as it is. */
  function Negate(a: int64): int64 {
    if a == -0x8000_0000_0000_0000 then a else -a
  }

  /** The magnitude of an int64_t, as the unsigned conversion of its negation or of itself. */
  lemma Magnitude(a: int64)
    ensures Wrap(Negate(a)) == if a < 0 then 0 - a else W * (if a == 0 then 0 else 1) - a
    ensures a >= 0 ==> Wrap(a) == a
  {
    if a == -0x8000_0000_0000_0000 {
      WrapIs(a, -1, W / 2);
    } else if a > 0 {
      WrapIs(0 - a, -1, W - a);
    }
  }

  lemma SignOfProduct(a: int, b: int)
    ensures a < 0 && b < 0 ==> a * b == (0 - a) * (0 - b)
    ensures a < 0 && b >= 0 ==> a * b == -((0 - a) * b)
    ensures a >= 0 && b < 0 ==> a * b == -(a * (0 - b))
  {}

  /** muls64: the exact signed 128-bit product, the most negative operands included. */
  method Muls64(a: int64, b: int64) returns (low: uint64, high: uint64)
    ensures SignedValue(low, high) == a * b && low == a * b % W && high == Wrap(a * b / W)
  {
    var sa, sb := a < 0, b < 0;
    var p, q := a, b;
    if sa {
      p := Negate(a);
    }
    if sb {
      q := Negate(b);
    }
    Magnitude(a);
    Magnitude(b);
    ghost var m: nat, n: nat := if sa then 0 - a else a, if sb then 0 - b else b;
    MulBound(m, n, 0x8000_0000_0000_0000, 0x8000_0000_0000_0000);
    SignOfProduct(a, b);
    low, high := Mul64(Wrap(p), Wrap(q));
    if sa != sb {
      low, high := Neg128(low, high);
    }
    SignedProduct(low, high, m, n, sa != sb);
    SignedHalvesOf(low, high, a * b);
  }

  lemma SignedHalvesOf(low: uint64, high: uint64, x: int)
    requires SignedValue(low, high) == x
    ensures low == x % W && high == Wrap(x / W)
  {
    var q := if high < 0x8000_0000_0000_0000 then high else high - W;
    WrapIs(x, q, low);
    assert x / W * W + x % W == x;
    assert x / W == q;
    WrapIs(q, if q == high then 0 else -1, high);
  }

  lemma SignedProduct(low: uint64, high: uint64, m: nat, n: nat, negative: bool)
    requires m * n <= 0x8000_0000_0000_0000 * 0x8000_0000_0000_0000
    requires Value(low, high) == if negative then (WW - m * n) % WW else m * n
    ensures SignedValue(low, high) == if negative then -(m * n) else m * n
  {
    var x := m * n;
    if negative && x > 0 {
      assert (WW - x) % WW == WW - x;
    }
  }
}
