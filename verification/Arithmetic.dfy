/** 64-bit division built from an instruction that divides 64 bits by 32 bits
    and traps when the quotient does not fit in 32. */
module Arithmetic {
  import opened Bits
  import opened Div

  const B: int := 0x1_0000_0000
  const TwoTo63: int := 0x8000_0000_0000_0000
  const TwoTo64: int := 0x1_0000_0000_0000_0000

  type u32 = x: int | 0 <= x < 0x1_0000_0000
  type u64 = x: int | 0 <= x < 0x1_0000_0000_0000_0000
  type i32 = x: int | -0x8000_0000 <= x < 0x8000_0000
  type i64 = x: int | -0x8000_0000_0000_0000 <= x < 0x8000_0000_0000_0000

  function Wrap32(x: int): u32 { x % 0x1_0000_0000 }
  function Wrap64(x: int): u64 { x % 0x1_0000_0000_0000_0000 }
  function Signed32(x: u32): i32 { if x < 0x8000_0000 then x else x - 0x1_0000_0000 }
  function Signed64(x: u64): i64 { if x < 0x8000_0000_0000_0000 then x else x - 0x1_0000_0000_0000_0000 }

  /** The DIVL instruction; the precondition is the absence of a trap. */
  function Divl(n: u64, d: u32): (q: u32)
    requires d != 0 && n / d < B
    ensures q * d <= n < q * d + d
  {
    DivisionBounds(n, d);
    n / d
  }

  /** x moved left by n bits, in unbounded arithmetic. */
  ghost function Shl(x: int, n: nat): int {
    if n == 0 then x else 2 * Shl(x, n - 1)
  }

  lemma {:induction false} ShlAdd(x: int, n: nat, k: nat)
    ensures Shl(x, n + k) == Shl(Shl(x, n), k)
  {
    if k > 0 {
      ShlAdd(x, n, k - 1);
    }
  }

  lemma {:induction false} ShlIsProduct(x: int, n: nat)
    ensures Shl(x, n) == x * Pow2(n)
  {
    if n > 0 {
      ShlIsProduct(x, n - 1);
      assert 2 * (x * Pow2(n - 1)) == x * (2 * Pow2(n - 1));
    }
  }

  /** n leading zeros: moving left by n brings the top bit into place. */
  ghost predicate LeadingZeros(x: u32, n: nat) {
    n < 32 && 0x8000_0000 <= Shl(x, n) < B
  }

  lemma FitsAfterShift(y: int, limit: int, m: int)
    requires 0 <= y <= limit && m >= 1 && (limit + 1) * m == B
    ensures 0 <= y * m < B && Wrap32(y * m) == y * m
  {
    MulMono(y, limit, m);
    MulMono(0, y, m);
    assert (limit + 1) * m == limit * m + m;
  }

  /** One of the five conditional shifts: afterwards y is above the limit. */
  method ShiftIfAtMost(ghost x: u32, y: u32, n: nat, limit: int, k: nat) returns (y': u32, n': nat)
    requires y == Shl(x, n) && (limit + 1) * Pow2(k) == B && limit < y * Pow2(k)
    ensures y' == Shl(x, n') && limit < y' && n <= n' <= n + k
  {
    y', n' := y, n;
    if y <= limit {
      var m := Pow2(k);
      ShlAdd(x, n, k);
      ShlIsProduct(y, k);
      FitsAfterShift(y, limit, m);
      n' := n + k;
      y' := Wrap32(y * m);
    }
  }

  method Nlz(x: u32) returns (n: nat)
    requires x != 0
    ensures LeadingZeros(x, n)
  {
    Pow2Values();
    var y: u32;
    y, n := ShiftIfAtMost(x, x, 0, 0x0000FFFF, 16);
    y, n := ShiftIfAtMost(x, y, n, 0x00FFFFFF, 8);
    y, n := ShiftIfAtMost(x, y, n, 0x0FFFFFFF, 4);
    y, n := ShiftIfAtMost(x, y, n, 0x3FFFFFFF, 2);
    y, n := ShiftIfAtMost(x, y, n, 0x7FFFFFFF, 1);
  }

  // ---------------------------------------------------------------------
  // Divisors of at most 32 bits: two steps of long division.

  lemma LongDivision(n: u64, d: u32)
    requires d != 0
    ensures 0 <= B * (n / B % d) + n % B < TwoTo64
    ensures (B * (n / B % d) + n % B) / d < B
    ensures (B * (n / B % d) + n % B) / d + B * (n / B / d) == n / d
  {
    var n1, n0 := n / B, n % B;
    var h, r := n1 / d, n1 % d;
    var x := B * r + n0;
    assert B * (r + 1) == B * r + B;
    MulMono(r + 1, d, B);
    QuotientBelow(x, d, B);
    DivisionBounds(x, d);
    assert n1 == d * h + r;
    assert B * (d * h) == (B * h) * d;
    assert n == (B * h) * d + x;
    assert (x / d + B * h) * d == (x / d) * d + (B * h) * d;
    QuotientUnique(n, d, x / d + B * h);
  }

  // ---------------------------------------------------------------------
  // Wider divisors: normalise, estimate, correct.

  /** The quantities of the estimate: the divisor's upper part v, and the
      estimate q made with it. */
  ghost predicate Estimate(n: u64, d: u64, s: nat, v: int, q: int) {
    && B <= d <= n && LeadingZeros(d / B, s)
    && v == Wrap64(d * Pow2(s)) / B && v > 0
    && q == n / 2 / v / Pow2(31 - s)
  }

  lemma ShiftedFits(d: int, d1: int, p: int, t: int)
    requires 0 <= d1 * B <= d < d1 * B + B && p >= 1 && t >= 1 && t * p == B && 0 <= d1 * t < B
    ensures d * t < B * B
  {
    if d1 >= p {
      MulMono(p, d1, t);
    }
    MulMono(d1 + 1, p, B);
    assert (d1 + 1) * B == d1 * B + B;
    MulMono(d + 1, p * B, t);
    assert (d + 1) * t == d * t + t;
    assert (p * B) * t == B * (t * p);
  }

  lemma ShiftedTop(d: int, d1: int, t: int)
    requires 0 <= d1 * B <= d && t >= 1 && d1 * t >= 0x8000_0000
    ensures d * t / B >= 0x8000_0000
  {
    MulMono(d1 * B, d, t);
    assert (d1 * B) * t == B * (d1 * t);
    QuotientAtLeast(d * t, B, 0x8000_0000);
  }

  /** Normalising keeps the divisor's top 32 bits: v is d with the low 32 - s
      bits dropped, and has its own top bit set. */
  lemma Normalised(d: u64, s: nat)
    requires B <= d && LeadingZeros(d / B, s)
    ensures d * Pow2(s) < TwoTo64
    ensures d * Pow2(s) / B == d / Pow2(32 - s) && 0x8000_0000 <= d / Pow2(32 - s) < B
  {
    Pow2Add(s, 32 - s);
    Pow2Values();
    ShlIsProduct(d / B, s);
    DivisionBounds(d, B);
    ShiftedFits(d, d / B, Pow2(32 - s), Pow2(s));
    ShiftedTop(d, d / B, Pow2(s));
    DivCancel(d, Pow2(32 - s), Pow2(s));
    assert B == Pow2(32 - s) * Pow2(s);
    QuotientBelow(d * Pow2(s), B, B);
  }

  /** Dividing by the divisor with its low bits dropped errs by at most one. */
  lemma DroppingLowBits(n: int, d: int, p: int)
    requires 0 <= n < TwoTo64 && d > 0 && p >= 2 && (p == 2 || p >= 4)
    requires d / p >= 0x8000_0000
    ensures (d / p) * p > 0 && n / d <= n / ((d / p) * p) <= n / d + 1
  {
    var v := d / p;
    var e := v * p;
    DivisionBounds(d, p);
    MulMono(0x8000_0000, v, p);
    var q := n / e;
    DivisionBounds(n, e);
    DivisionBounds(n, d);
    MulMono(e, d, n / d);
    assert (n / d) * e <= n;
    QuotientAtLeast(n, e, n / d);
    if q > 0 {
      EstimateError(n, d, p, e, q);
      QuotientAtLeast(n, d, q - 1);
    }
  }

  lemma EstimateError(n: int, d: int, p: int, e: int, q: int)
    requires 0 <= n < TwoTo64 && (p == 2 || p >= 4) && e >= 0x8000_0000 * p && e <= d < e + p
    requires q > 0 && q * e <= n
    ensures (q - 1) * d <= n
  {
    MulMono(0x8000_0000 * p, e, q);
    assert (0x8000_0000 * p) * q == 0x8000_0000 * (p * q);
    assert p * q < 0x2_0000_0000;
    MulMono(d - e, p - 1, q - 1);
    assert (q - 1) * d == q * e - e + (d - e) * (q - 1);
    if p == 2 {
      assert (p - 1) * (q - 1) == q - 1;
    } else {
      assert (p - 1) * (q - 1) == p * q - p - q + 1;
    }
  }

  lemma EstimateAsQuotient(n: int, v: int, h: int)
    requires n >= 0 && v > 0 && h > 0
    ensures v * (2 * h) > 0 && n / 2 / v / h == n / (v * (2 * h))
  {
    DivDiv(n / 2, v, h);
    DivDiv(n, 2, v * h);
    assert 2 * (v * h) == v * (2 * h);
  }

  lemma EstimateBy(n: int, d: int, v: int, h: int, p: int, q: int)
    requires 0 <= n < TwoTo64 && d > 0 && h >= 1 && p == 2 * h
    requires v == d / p && v >= 0x8000_0000 && q == n / 2 / v / h
    ensures n / d <= q <= n / d + 1
  {
    EstimateAsQuotient(n, v, h);
    DroppingLowBits(n, d, p);
  }

  lemma TopWord(x: int, v: int, w: int)
    requires 0 <= x < TwoTo64 && v == Wrap64(x) / B && x / B == w
    ensures v == w
  {
  }

  /** No trap, and the estimate is the quotient or one more. */
  lemma EstimateIsClose(n: u64, d: u64, s: nat, v: int, q: int)
    requires Estimate(n, d, s, v, q)
    ensures 0x8000_0000 <= v < B && n / 2 / v < B
    ensures n / d <= q <= n / d + 1
  {
    Normalised(d, s);
    TopWord(d * Pow2(s), v, d / Pow2(32 - s));
    assert Pow2(32 - s) == 2 * Pow2(31 - s);
    QuotientBelow(n / 2, v, B);
    EstimateBy(n, d, v, Pow2(31 - s), Pow2(32 - s), q);
  }

  /** The bounds are reached: an estimate one too large, and a first quotient
      that only just fits in 32 bits. */
  lemma EstimateBoundsAreTight()
    ensures exists n: u64, d: u64, s: nat, v: int, q: int :: Estimate(n, d, s, v, q) && q == n / d + 1
    ensures exists n: u64, d: u64, s: nat, v: int, q: int :: Estimate(n, d, s, v, q) && n / 2 / v == B - 1
  {
    Pow2Values();
    ShlIsProduct(1, 31);
    assert LeadingZeros((B + 1) / B, 31);
    assert Estimate(2 * B, B + 1, 31, 0x8000_0000, 2);
    assert LeadingZeros(B / B, 31);
    assert Estimate(TwoTo64 - 1, B, 31, 0x8000_0000, B - 1);
  }

  lemma Corrected(n: u64, d: u64, q: int)
    requires 0 < d <= n && n / d <= q <= n / d + 1
    ensures n / d == if Wrap64(n - (q - 1) * d) < d then q - 1 else q
  {
    var t := n / d;
    DivisionBounds(n, d);
    QuotientAtLeast(n, d, 1);
    if q == t {
      assert (q - 1) * d == t * d - d;
      MulMono(1, t, d);
    }
  }

  method UdivNarrow(n: u64, d: u32) returns (q: u64)
    requires d != 0
    ensures q == n / d
  {
    var n1, n0: u32 := n / B, n % B;
    LongDivision(n, d);
    DivisionBounds(n, d);
    MulAtLeast(n / d, d);
    q := Divl(B * (n1 % d) + n0, d) + B * (n1 / d);
  }

  method UdivWide(n: u64, d: u64) returns (q: u64)
    requires B <= d <= n
    ensures q == n / d
  {
    var d1: u32 := d / B;
    var s := Nlz(d1);
    Normalised(d, s);
    var v: u32 := Wrap64(d * Pow2(s)) / B;
    EstimateIsClose(n, d, s, v, n / 2 / v / Pow2(31 - s));
    var first := Divl(n / 2, v);
    DivisionBounds(first, Pow2(31 - s));
    var estimate := first / Pow2(31 - s);
    Corrected(n, d, estimate);
    QuotientAtLeast(n, d, 1);
    q := if Wrap64(n - (estimate - 1) * d) < d then estimate - 1 else estimate;
  }

  /** Unsigned division is exact for every dividend and every nonzero divisor,
      and no DIVL in it traps. */
  method Udiv64(n: u64, d: u64) returns (q: u64)
    requires d != 0
    ensures q == n / d
  {
    if d / B == 0 {
      q := UdivNarrow(n, d);
    } else if n < d {
      QuotientUnique(n, d, 0);
      q := 0;
    } else {
      q := UdivWide(n, d);
    }
  }

  /** The unsigned remainder is returned through a 32-bit result: it is right
      exactly when it fits. */
  method Umod64(n: u64, d: u64) returns (r: u32)
    requires d != 0
    ensures r == n % d <==> n % d < B
    ensures r == Wrap32(n % d)
  {
    var q := Udiv64(n, d);
    assert n - d * q == n % d;
    r := Wrap32(Wrap64(n - d * q));
  }

  function AbsVal(x: int): nat {
    if x < 0 then -x else x
  }

  /** Division truncated toward zero, as in section 6.5.5 of ISO/IEC 9899:1999:
      what is left over is smaller than the divisor and does not point away
      from the dividend. */
  predicate TowardZero(n: int, d: int, q: int) {
    var r := n - d * q;
    AbsVal(r) < AbsVal(d) && (r == 0 || (r < 0) == (n < 0))
  }

  lemma MultipleIsLarge(d: int, e: int)
    requires e != 0
    ensures AbsVal(d * e) >= AbsVal(d)
  {
    assert d * e == -(d * -e) == -(-d * e) == -d * -e;
    MulAtLeast(AbsVal(d), AbsVal(e));
  }

  lemma CloseTogether(n: int, d: int, r: int, r': int)
    requires AbsVal(r) < AbsVal(d) && (r == 0 || (r < 0) == (n < 0))
    requires AbsVal(r') < AbsVal(d) && (r' == 0 || (r' < 0) == (n < 0))
    ensures AbsVal(r - r') < AbsVal(d)
  {
  }

  lemma TowardZeroUnique(n: int, d: int, q: int, q': int)
    requires TowardZero(n, d, q) && TowardZero(n, d, q')
    ensures q == q'
  {
    var r, r' := n - d * q, n - d * q';
    CloseTogether(n, d, r, r');
    assert d * (q' - q) == r - r';
    if q != q' {
      MultipleIsLarge(d, q' - q);
    }
  }

  /** The quotient of the magnitudes, with its sign. */
  function SignedQuotient(n: int, d: int, a: int): int {
    if (n < 0) == (d < 0) then a else -a
  }

  lemma SignedProduct(n: int, d: int, a: int)
    ensures d * SignedQuotient(n, d, a) == if n < 0 then -(AbsVal(d) * a) else AbsVal(d) * a
  {
    assert d * -a == -(d * a);
    assert -d * a == -(d * a);
  }

  /** The remainder that belongs to truncation toward zero. */
  function TruncatedRemainder(n: int, d: int): int
    requires d != 0
  {
    if n < 0 then -(AbsVal(n) % AbsVal(d)) else AbsVal(n) % AbsVal(d)
  }

  lemma DivModIdentity(x: int, w: int)
    requires w > 0
    ensures w * (x / w) == x - x % w && 0 <= x % w < w
  {
  }

  lemma MagnitudeQuotient(n: int, d: int, a: int)
    requires d != 0 && a == AbsVal(n) / AbsVal(d)
    ensures n - d * SignedQuotient(n, d, a) == TruncatedRemainder(n, d)
    ensures TowardZero(n, d, SignedQuotient(n, d, a))
  {
    SignedProduct(n, d, a);
    DivModIdentity(AbsVal(n), AbsVal(d));
  }

  /** The sign is put back in 64 bits; this is exact but for one quotient. */
  function WithSign(negative: bool, a: u64): i64 {
    if negative then Signed64(Wrap64(-(Signed64(a) as int))) else Signed64(a)
  }

  lemma MagnitudeFits(n: i64, d: i64, a: int)
    requires d != 0 && a == AbsVal(n) / AbsVal(d)
    ensures 0 <= a <= TwoTo63
    ensures a == TwoTo63 <==> n == -TwoTo63 && AbsVal(d) == 1
  {
    DivisionBounds(AbsVal(n), AbsVal(d));
    if AbsVal(d) == 1 {
      QuotientUnique(AbsVal(n), AbsVal(d), AbsVal(n));
    } else {
      QuotientBelow(AbsVal(n), AbsVal(d), TwoTo63);
    }
  }

  lemma WithSignExact(negative: bool, a: u64)
    requires a < TwoTo63 || (a == TwoTo63 && negative)
    ensures WithSign(negative, a) == if negative then -(a as int) else a
  {
  }

  /** Signed division truncates toward zero on every input but one. */
  method Sdiv64(n: i64, d: i64) returns (q: i64)
    requires d != 0
    ensures TowardZero(n, d, q) <==> !(n == -TwoTo63 && d == -1)
    ensures n == -TwoTo63 && d == -1 ==> q == -TwoTo63
  {
    var nAbs := if n >= 0 then n else Wrap64(-(n as int));
    var dAbs := if d >= 0 then d else Wrap64(-(d as int));
    var qAbs := Udiv64(nAbs, dAbs);
    MagnitudeFits(n, d, qAbs);
    q := WithSign((n < 0) != (d < 0), qAbs);
    if n == -TwoTo63 && d == -1 {
      assert !TowardZero(-TwoTo63, -1, -TwoTo63);
    } else {
      WithSignExact((n < 0) != (d < 0), qAbs);
      MagnitudeQuotient(n, d, qAbs);
    }
  }

  lemma RemainderOfQuotient(n: int, d: int, q: int)
    requires d != 0 && TowardZero(n, d, q)
    ensures n - d * q == TruncatedRemainder(n, d)
  {
    MagnitudeQuotient(n, d, AbsVal(n) / AbsVal(d));
    TowardZeroUnique(n, d, q, SignedQuotient(n, d, AbsVal(n) / AbsVal(d)));
  }

  function Narrow(x: int): i32 {
    Signed32(Wrap32(Signed64(Wrap64(x))))
  }

  lemma NarrowExact(x: int)
    ensures Narrow(x) == x <==> -0x8000_0000 <= x < 0x8000_0000
  {
  }

  lemma NarrowCongruent(x: int)
    ensures (Narrow(x) as int - x) % 0x1_0000_0000 == 0
  {
    assert (Wrap64(x) - x) % TwoTo64 == 0;
  }

  /** The signed remainder, too, is right exactly when it fits in 32 bits; in any case it is
      congruent to the remainder, so it is the 32-bit number with the same low bits. */
  method Smod64(n: i64, d: i64) returns (r: i32)
    requires d != 0
    ensures (r as int - TruncatedRemainder(n, d)) % 0x1_0000_0000 == 0
    ensures r == TruncatedRemainder(n, d) <==> -0x8000_0000 <= TruncatedRemainder(n, d) < 0x8000_0000
  {
    var q := Sdiv64(n, d);
    var x := n - d * q;
    r := Narrow(x);
    if n == -TwoTo63 && d == -1 {
      assert x == -TwoTo64 && TruncatedRemainder(-TwoTo63, -1) == 0;
    } else {
      RemainderOfQuotient(n, d, q);
      NarrowExact(x);
      NarrowCongruent(x);
    }
  }
}
