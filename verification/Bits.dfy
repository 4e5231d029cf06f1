/** Powers of two and the bitwise operators of machine words, on the naturals. */
module Bits {
  import opened Div

  function Pow2(k: nat): (p: nat)
    ensures p >= 1
  {
    if k == 0 then 1 else 2 * Pow2(k - 1)
  }

  lemma {:induction false} Pow2Add(a: nat, b: nat)
    ensures Pow2(a + b) == Pow2(a) * Pow2(b)
  {
    if a > 0 {
      Pow2Add(a - 1, b);
      assert Pow2(a + b) == 2 * Pow2(a - 1 + b);
      assert 2 * (Pow2(a - 1) * Pow2(b)) == (2 * Pow2(a - 1)) * Pow2(b);
    }
  }

  lemma Pow2Values()
    ensures Pow2(0) == 1 && Pow2(1) == 2 && Pow2(2) == 4 && Pow2(4) == 16 && Pow2(8) == 256
    ensures Pow2(16) == 0x1_0000 && Pow2(31) == 0x8000_0000 && Pow2(32) == 0x1_0000_0000
  {
    assert Pow2(2) == 4 && Pow2(3) == 8;
    Pow2Add(2, 2);
    Pow2Add(4, 4);
    Pow2Add(8, 8);
    Pow2Add(16, 16);
  }

  // ---------------------------------------------------------------------
  // Bitwise operators.

  function And(x: nat, y: nat): nat {
    if x == 0 || y == 0 then 0 else 2 * And(x / 2, y / 2) + (if x % 2 == 1 && y % 2 == 1 then 1 else 0)
  }

  /** Masking with one less than a power of two is the remainder. */
  lemma {:induction false} AndMask(x: nat, k: nat)
    ensures And(x, Pow2(k) - 1) == x % Pow2(k)
  {
    if k == 0 {
      assert x % 1 == 0;
    } else {
      var p := Pow2(k - 1);
      AndMask(x / 2, k - 1);
      HalvesMod(x, p);
      if x > 0 {
        assert (2 * p - 1) / 2 == p - 1 && (2 * p - 1) % 2 == 1;
      }
    }
  }

  lemma HalvesMod(x: nat, p: nat)
    requires p >= 1
    ensures x % (2 * p) == 2 * (x / 2 % p) + x % 2
  {
    var q, r := x / 2 / p, x / 2 % p;
    assert x / 2 == p * q + r;
    assert x == (2 * p) * q + (2 * r + x % 2) by {
      assert (2 * p) * q == 2 * (p * q);
    }
    DivModUnique(x, 2 * p, q, 2 * r + x % 2);
  }

  /** x with its lowest 1 bit turned off. */
  function TurnOffLeast1Bit(x: nat): nat
    requires x > 0
  {
    And(x, x - 1)
  }

  predicate IsPowerOf2(x: nat) {
    x != 0 && TurnOffLeast1Bit(x) == 0
  }

  /** The largest power of two up to x. */
  function TopBit(x: nat): (p: nat)
    requires x > 0
    ensures 0 < p <= x < 2 * p
  {
    if x == 1 then 1 else 2 * TopBit(x / 2)
  }

  lemma AndSame(x: nat)
    ensures And(x, x) == x
  {
  }

  lemma TurnOffHalves(x: nat)
    requires x > 0
    ensures TurnOffLeast1Bit(x) == if x % 2 == 1 then x - 1 else 2 * TurnOffLeast1Bit(x / 2)
  {
    if x % 2 == 1 {
      assert (x - 1) / 2 == x / 2;
      AndSame(x / 2);
    } else {
      assert (x - 1) / 2 == x / 2 - 1;
    }
  }

  /** Turning off the lowest bit makes x smaller but keeps its top bit; only the
      top bit itself has nothing left. */
  lemma {:induction false} TurnOffKeepsTop(x: nat)
    requires x > 0
    ensures TurnOffLeast1Bit(x) < x
    ensures TurnOffLeast1Bit(x) == 0 <==> x == TopBit(x)
    ensures TurnOffLeast1Bit(x) > 0 ==> TopBit(TurnOffLeast1Bit(x)) == TopBit(x)
    decreases x
  {
    TurnOffHalves(x);
    if x > 1 {
      TurnOffKeepsTop(x / 2);
    }
  }

  lemma {:induction false} TopBitIsPow2(x: nat) returns (k: nat)
    requires x > 0
    ensures TopBit(x) == Pow2(k)
    decreases x
  {
    if x == 1 {
      k := 0;
    } else {
      k := TopBitIsPow2(x / 2);
      k := k + 1;
    }
  }

  // ---------------------------------------------------------------------
  // Single bits.

  function Bit(x: nat, k: nat): bool {
    if k == 0 then x % 2 == 1 else Bit(x / 2, k - 1)
  }

  function Or(x: nat, y: nat): nat {
    if x == 0 then y else if y == 0 then x
    else 2 * Or(x / 2, y / 2) + (if x % 2 == 1 || y % 2 == 1 then 1 else 0)
  }

  /** The complement of x in n bits. */
  function Not(x: nat, n: nat): nat
    requires x < Pow2(n)
  {
    Pow2(n) - 1 - x
  }

  lemma {:induction false} BitOfZero(k: nat)
    ensures !Bit(0, k)
  {
    if k > 0 {
      BitOfZero(k - 1);
    }
  }

  lemma DoubledPlusBit(h: nat, b: bool)
    ensures var x := 2 * h + (if b then 1 else 0); x / 2 == h && (x % 2 == 1) == b
  {
  }

  lemma {:induction false} BitOfAnd(x: nat, y: nat, k: nat)
    ensures Bit(And(x, y), k) == (Bit(x, k) && Bit(y, k))
    decreases k
  {
    if x == 0 || y == 0 {
      BitOfZero(k);
    } else {
      DoubledPlusBit(And(x / 2, y / 2), x % 2 == 1 && y % 2 == 1);
      if k > 0 {
        BitOfAnd(x / 2, y / 2, k - 1);
      }
    }
  }

  lemma {:induction false} BitOfOr(x: nat, y: nat, k: nat)
    ensures Bit(Or(x, y), k) == (Bit(x, k) || Bit(y, k))
    decreases k
  {
    if x == 0 || y == 0 {
      BitOfZero(k);
    } else {
      DoubledPlusBit(Or(x / 2, y / 2), x % 2 == 1 || y % 2 == 1);
      if k > 0 {
        BitOfOr(x / 2, y / 2, k - 1);
      }
    }
  }

  lemma {:induction false} BitOfPow2(n: nat, k: nat)
    ensures Bit(Pow2(n), k) == (k == n)
    decreases k
  {
    if n == 0 {
      if k > 0 { BitOfZero(k - 1); }
    } else if k > 0 {
      assert Pow2(n) / 2 == Pow2(n - 1);
      BitOfPow2(n - 1, k - 1);
    }
  }

  lemma {:induction false} BitOfNot(x: nat, n: nat, k: nat)
    requires x < Pow2(n) && k < n
    ensures Bit(Not(x, n), k) == !Bit(x, k)
    decreases k
  {
    NotHalves(x, n);
    if k > 0 {
      BitOfNot(x / 2, n - 1, k - 1);
    }
  }

  lemma NotHalves(x: nat, n: nat)
    requires n > 0 && x < Pow2(n)
    ensures x / 2 < Pow2(n - 1) && Not(x, n) % 2 == 1 - x % 2 && Not(x, n) / 2 == Not(x / 2, n - 1)
  {
    assert Not(x, n) == 2 * (Pow2(n - 1) - 1 - x / 2) + 1 - x % 2;
  }

  lemma {:induction false} AndBelow(x: nat, y: nat, n: nat)
    requires x < Pow2(n)
    ensures And(x, y) < Pow2(n)
    decreases n
  {
    if x != 0 && y != 0 {
      AndBelow(x / 2, y / 2, n - 1);
    }
  }

  lemma {:induction false} OrBelow(x: nat, y: nat, n: nat)
    requires x < Pow2(n) && y < Pow2(n)
    ensures Or(x, y) < Pow2(n)
    decreases n
  {
    if x != 0 && y != 0 {
      OrBelow(x / 2, y / 2, n - 1);
    }
  }

  lemma {:induction false} Pow2Grows(a: nat, b: nat)
    requires a < b
    ensures Pow2(a) < Pow2(b)
    decreases b
  {
    if a + 1 < b {
      Pow2Grows(a, b - 1);
    }
  }

  /** Testing a bit with its mask. */
  lemma {:induction false} AndPow2(x: nat, k: nat)
    ensures And(x, Pow2(k)) != 0 <==> Bit(x, k)
    decreases k
  {
    if x == 0 {
      BitOfZero(k);
    } else if k > 0 {
      assert Pow2(k) / 2 == Pow2(k - 1) && Pow2(k) % 2 == 0;
      AndPow2(x / 2, k - 1);
    }
  }
}
