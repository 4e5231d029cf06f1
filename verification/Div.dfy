/** Facts about products, quotients and remainders that the solver does not
    find unaided. */
module Div {
  lemma MulAtLeast(a: int, b: int)
    requires a >= 0 && b >= 1
    ensures a * b >= a
  {
    if b > 1 {
      assert a * b == a + a * (b - 1);
      assert a * (b - 1) >= 0;
    }
  }

  lemma MulMono(a: int, b: int, c: int)
    requires a <= b && c >= 0
    ensures a * c <= b * c
  {
    assert (b - a) * c >= 0;
    assert (b - a) * c == b * c - a * c;
  }

  /** A quotient and a remainder in range are the quotient and the remainder. */
  lemma DivModUnique(x: int, w: int, q: int, r: int)
    requires 0 <= r < w && x == w * q + r
    ensures x / w == q && x % w == r
  {
    var q', r' := x / w, x % w;
    assert x == w * q' + r';
    var e := q - q';
    assert w * e == w * q - w * q';
    if e >= 1 {
      MulAtLeast(w, e);
    } else if e <= -1 {
      assert w * -e == -(w * e);
      MulAtLeast(w, -e);
    }
  }

  lemma DivisionBounds(n: int, d: int)
    requires n >= 0 && d > 0
    ensures n / d >= 0 && (n / d) * d <= n < (n / d) * d + d
  {
    assert n == d * (n / d) + n % d;
  }

  lemma QuotientUnique(n: int, d: int, q: int)
    requires d > 0 && q * d <= n < q * d + d
    ensures n / d == q
  {
    DivModUnique(n, d, q, n - q * d);
  }

  lemma QuotientBelow(n: int, d: int, b: int)
    requires n >= 0 && d > 0 && n < b * d
    ensures n / d < b
  {
    DivisionBounds(n, d);
    if n / d >= b {
      MulMono(b, n / d, d);
    }
  }

  lemma QuotientAtLeast(n: int, d: int, b: int)
    requires n >= 0 && d > 0 && b * d <= n
    ensures n / d >= b
  {
    DivisionBounds(n, d);
    if n / d + 1 <= b {
      MulMono(n / d + 1, b, d);
    }
  }

  /** Dividing twice is dividing by the product. */
  lemma DivDiv(a: int, b: int, c: int)
    requires a >= 0 && b > 0 && c > 0
    ensures b * c > 0 && (a / b) / c == a / (b * c)
  {
    var q := (a / b) / c;
    MulAtLeast(b, c);
    DivisionBounds(a, b);
    DivisionBounds(a / b, c);
    MulMono(q * c, a / b, b);
    MulMono(a / b + 1, q * c + c, b);
    assert (q * c) * b == q * (b * c);
    assert (q * c + c) * b == q * (b * c) + b * c;
    assert (a / b + 1) * b == (a / b) * b + b;
    QuotientUnique(a, b * c, q);
  }

  /** A common factor cancels. */
  lemma DivCancel(a: int, b: int, c: int)
    requires a >= 0 && b > 0 && c > 0
    ensures b * c > 0 && (a * c) / (b * c) == a / b
  {
    var q := a / b;
    MulAtLeast(b, c);
    DivisionBounds(a, b);
    MulMono(q * b, a, c);
    MulMono(a + 1, q * b + b, c);
    assert (q * b) * c == q * (b * c);
    assert (q * b + b) * c == q * (b * c) + b * c;
    assert (a + 1) * c == a * c + c;
    QuotientUnique(a * c, b * c, q);
  }
}
