/** The bit operations of JavaScript on unsigned integers of k bits, digit by digit. */
module Bits {

  function Pow2(k: nat): (p: nat)
    ensures p >= 1
  {
    if k == 0 then 1 else 2 * Pow2(k - 1)
  }

  function And(x: nat, y: nat, k: nat): (r: nat)
    ensures r < Pow2(k)
  {
    if k == 0 then 0 else 2 * And(x / 2, y / 2, k - 1) + (if x % 2 == 1 && y % 2 == 1 then 1 else 0)
  }

  function Or(x: nat, y: nat, k: nat): (r: nat)
    ensures r < Pow2(k)
  {
    if k == 0 then 0 else 2 * Or(x / 2, y / 2, k - 1) + (if x % 2 == 1 || y % 2 == 1 then 1 else 0)
  }

  function Not(x: nat, k: nat): (r: nat)
    ensures r < Pow2(k)
  {
    if k == 0 then 0 else 2 * Not(x / 2, k - 1) + (1 - x % 2)
  }

  /** The number of ones among the binary digits. */
  function Ones(x: nat): nat {
    if x == 0 then 0 else x % 2 + Ones(x / 2)
  }

  lemma {:induction false} NotIs(x: nat, k: nat)
    requires x < Pow2(k)
    ensures Not(x, k) == Pow2(k) - 1 - x
    decreases k
  {
    if k > 0 {
      NotIs(x / 2, k - 1);
    }
  }

  /** Masking with the high digits clears the low ones. */
  lemma {:induction false} AndHigh(x: nat, h: nat, k: nat)
    requires h <= k && x < Pow2(k)
    ensures Pow2(h) <= Pow2(k)
    ensures And(x, Pow2(k) - Pow2(h), k) == x - x % Pow2(h)
    decreases k
  {
    if h == 0 {
      AndAll(x, k);
    } else {
      AndHigh(x / 2, h - 1, k - 1);
      HalfMod(x, Pow2(h - 1));
      assert (Pow2(k) - Pow2(h)) / 2 == Pow2(k - 1) - Pow2(h - 1);
    }
  }

  lemma {:induction false} AndAll(x: nat, k: nat)
    requires x < Pow2(k)
    ensures And(x, Pow2(k) - 1, k) == x
    decreases k
  {
    if k > 0 {
      AndAll(x / 2, k - 1);
    }
  }

  lemma HalfMod(x: nat, p: nat)
    requires 0 < p
    ensures x % (2 * p) == 2 * (x / 2 % p) + x % 2
  {
    var q, r := x / 2 / p, x / 2 % p;
    assert x == 2 * (q * p + r) + x % 2;
    assert x == q * (2 * p) + (2 * r + x % 2);
    ModIs(x, 2 * p, q, 2 * r + x % 2);
  }

  lemma ModIs(x: nat, d: nat, q: nat, r: nat)
    requires 0 < d && r < d && x == q * d + r
    ensures x / d == q && x % d == r
  {
    var q', r' := x / d, x % d;
    assert q' * d + r' == q * d + r;
    assert (q' + 1) * d == q' * d + d && (q + 1) * d == q * d + d;
    if q' < q {
      Mul(q' + 1, q, d);
    } else if q' > q {
      Mul(q + 1, q', d);
    }
  }

  lemma Mul(x: nat, y: nat, d: nat)
    requires x <= y
    ensures x * d <= y * d
  {
  }

  /** Masking with the low digits leaves the remainder. */
  lemma {:induction false} AndLow(x: nat, h: nat, k: nat)
    requires h <= k
    ensures And(x, Pow2(h) - 1, k) == x % Pow2(h)
    decreases k
  {
    if h == 0 {
      AndZero(x, k);
    } else {
      AndLow(x / 2, h - 1, k - 1);
      hide And;
      AndLowStep(x, Pow2(h - 1), k);
    }
  }

  lemma AndLowStep(x: nat, q: nat, k: nat)
    requires 0 < k && 0 < q && And(x / 2, q - 1, k - 1) == x / 2 % q
    ensures And(x, 2 * q - 1, k) == x % (2 * q)
  {
    hide And;
    assert (2 * q - 1) / 2 == q - 1 && (2 * q - 1) % 2 == 1;
    Digits(x, 2 * q - 1, k);
    HalfMod(x, q);
  }

  lemma {:induction false} AndZero(x: nat, k: nat)
    ensures And(x, 0, k) == 0
    decreases k
  {
    if k > 0 {
      AndZero(x / 2, k - 1);
    }
  }

  /** Joining numbers without a common digit adds them. */
  lemma {:induction false} OrDisjoint(x: nat, y: nat, h: nat, k: nat)
    requires h <= k && x < Pow2(k) && x % Pow2(h) == 0 && y < Pow2(h)
    ensures Or(x, y, k) == x + y
    decreases k
  {
    if h == 0 {
      OrZero(x, k);
    } else {
      HalfMod(x, Pow2(h - 1));
      OrDisjoint(x / 2, y / 2, h - 1, k - 1);
    }
  }

  lemma {:induction false} OrZero(x: nat, k: nat)
    requires x < Pow2(k)
    ensures Or(x, 0, k) == x
    decreases k
  {
    if k > 0 {
      OrZero(x / 2, k - 1);
    }
  }

  lemma {:induction false} OrIsZero(x: nat, y: nat, k: nat)
    requires x < Pow2(k) && Or(x, y, k) == 0
    ensures x == 0
    decreases k
  {
    if k > 0 {
      OrIsZero(x / 2, y / 2, k - 1);
    }
  }

  /** Taking the digits of s under the mask and those of e beside it changes nothing under it. */
  lemma {:induction false} Spliced(s: nat, e: nat, m: nat, k: nat)
    ensures And(Or(And(s, m, k), And(e, Not(m, k), k), k), m, k) == And(s, m, k)
    decreases k
  {
    if k > 0 {
      hide And, Or, Not;
      Spliced(s / 2, e / 2, m / 2, k - 1);
      var n, a := Not(m, k), And(s, m, k);
      var b := And(e, n, k);
      Digits(m, m, k);
      Digits(s, m, k);
      Digits(e, n, k);
      Digits(a, b, k);
      Digits(Or(a, b, k), m, k);
    }
  }

  /** The operations, one digit at a time. */
  lemma Digits(x: nat, y: nat, k: nat)
    requires k > 0
    ensures And(x, y, k) / 2 == And(x / 2, y / 2, k - 1) && And(x, y, k) % 2 == if x % 2 == 0 || y % 2 == 0 then 0 else 1
    ensures Or(x, y, k) / 2 == Or(x / 2, y / 2, k - 1)
    ensures Or(x, y, k) % 2 == if x % 2 == 0 && y % 2 == 0 then 0 else 1
    ensures Not(x, k) / 2 == Not(x / 2, k - 1) && Not(x, k) % 2 == 1 - x % 2
  {
  }

  /** A contiguous mask of k - h ones. */
  lemma {:induction false} OnesOfMask(h: nat, k: nat)
    requires h <= k
    ensures Pow2(h) <= Pow2(k) && Ones(Pow2(k) - Pow2(h)) == k - h
    decreases k
  {
    if h == 0 {
      OnesOfAll(k);
    } else {
      OnesOfMask(h - 1, k - 1);
      var x := Pow2(k) - Pow2(h);
      assert x == 2 * (Pow2(k - 1) - Pow2(h - 1));
      OnesOfDouble(Pow2(k - 1) - Pow2(h - 1));
    }
  }

  lemma OnesOfDouble(x: nat)
    ensures Ones(2 * x) == Ones(x)
  {
  }

  lemma {:induction false} OnesOfAll(k: nat)
    ensures Ones(Pow2(k) - 1) == k
    decreases k
  {
    if k > 0 {
      OnesOfAll(k - 1);
      assert (Pow2(k) - 1) / 2 == Pow2(k - 1) - 1;
    }
  }
}
