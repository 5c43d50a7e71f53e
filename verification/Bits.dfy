/** Binary arithmetic on unbounded integers, as Python's `<<`, `>>`, `&` and `|` do it. */
module Bits {
  function Pow2(n: nat): nat
    ensures Pow2(n) > 0
  {
    if n == 0 then 1 else 2 * Pow2(n - 1)
  }

  lemma Pow2Five(n: nat)
    ensures Pow2(n + 5) == 32 * Pow2(n)
  {
    assert Pow2(n + 5) == 2 * Pow2(n + 4) && Pow2(n + 4) == 2 * Pow2(n + 3) && Pow2(n + 3) == 2 * Pow2(n + 2);
    assert Pow2(n + 2) == 2 * Pow2(n + 1);
  }

  /** `a & mask` for a non-negative mask; a negative a has infinitely many leading ones. */
  function And(a: int, mask: nat): nat
    decreases mask
  {
    if mask == 0 then 0 else 2 * And(a / 2, mask / 2) + if a % 2 == 1 && mask % 2 == 1 then 1 else 0
  }

  /** The low `width` bits of x, moved up by `shift`: `(x & (2^width - 1)) << shift`. */
  function Field(x: int, width: nat, shift: nat): nat {
    And(x, Pow2(width) - 1) * Pow2(shift)
  }

  /** `a | b` */
  function Or(a: nat, b: nat): nat
    decreases a + b
  {
    if a == 0 && b == 0 then 0 else 2 * Or(a / 2, b / 2) + if a % 2 == 1 || b % 2 == 1 then 1 else 0
  }

  lemma {:induction false} ProductSign(a: nat, d: int)
    requires a > 0
    ensures d > 0 ==> a * d >= a
    ensures d < 0 ==> a * d <= -(a as int)
    decreases if d < 0 then -d else d
  {
    if d > 1 {
      ProductSign(a, d - 1);
      assert a * d == a * (d - 1) + a;
    } else if d < -1 {
      ProductSign(a, d + 1);
      assert a * d == a * (d + 1) - a;
    }
  }

  lemma QuotientUnique(x: int, a: nat, q: int, r: nat)
    requires a > 0 && x == a * q + r && r < a
    ensures x / a == q && x % a == r
  {
    var d := x / a - q;
    assert a * d == r - x % a;
    ProductSign(a, d);
  }

  lemma AndOdd(x: int, p: nat)
    requires p > 0
    ensures And(x, 2 * p - 1) == 2 * And(x / 2, p - 1) + x % 2
  {
    assert (2 * p - 1) / 2 == p - 1 && (2 * p - 1) % 2 == 1;
  }

  lemma {:induction false} MaskSplits(x: int, k: nat) returns (q: int)
    ensures And(x, Pow2(k) - 1) < Pow2(k) && x == Pow2(k) * q + And(x, Pow2(k) - 1)
    decreases k
  {
    if k == 0 {
      q := x;
    } else {
      var p := Pow2(k - 1);
      q := MaskSplits(x / 2, k - 1);
      AndOdd(x, p);
      TwiceProduct(p, q);
    }
  }

  /** The low k bits are the remainder by 2^k. */
  lemma MaskIsRemainder(x: int, k: nat)
    ensures And(x, Pow2(k) - 1) == x % Pow2(k)
  {
    var q := MaskSplits(x, k);
    QuotientUnique(x, Pow2(k), q, And(x, Pow2(k) - 1));
  }

  lemma TwiceProduct(p: nat, q: int)
    ensures 2 * (p * q) == (2 * p) * q
  {
  }

  lemma {:induction false} OrZero(h: nat)
    ensures Or(h, 0) == h
  {
    if h > 0 {
      OrZero(h / 2);
    }
  }

  /** A field above k bits and a field within them do not overlap, so `|` adds them. */
  lemma {:induction false} OrIsSum(h: nat, low: nat, k: nat)
    requires low < Pow2(k)
    ensures Or(h * Pow2(k), low) == h * Pow2(k) + low
  {
    if k == 0 {
      OrZero(h);
    } else {
      var p := Pow2(k - 1);
      OrIsSum(h, low / 2, k - 1);
      TwiceProduct(p, h);
      assert h * Pow2(k) == 2 * (h * p);
      assert h * Pow2(k) / 2 == h * p && h * Pow2(k) % 2 == 0;
    }
  }
}
