/** The bitwise operators of C on unsigned words, as functions on natural numbers. */
module Bits {

  function And(a: nat, b: nat): nat {
    if a == 0 || b == 0 then 0 else (if a % 2 == 1 && b % 2 == 1 then 1 else 0) + 2 * And(a / 2, b / 2)
  }

  function Or(a: nat, b: nat): nat
    decreases a + b
  {
    if a == 0 then b else if b == 0 then a
    else (if a % 2 == 1 || b % 2 == 1 then 1 else 0) + 2 * Or(a / 2, b / 2)
  }

  function Pow2(n: nat): (r: nat)
    ensures r > 0
  {
    if n == 0 then 1 else 2 * Pow2(n - 1)
  }

  lemma AndStep(a: nat, b: nat)
    ensures And(a, b) % 2 == (if a % 2 == 1 && b % 2 == 1 then 1 else 0)
    ensures And(a, b) / 2 == And(a / 2, b / 2)
  {
  }

  lemma OrStep(a: nat, b: nat)
    ensures Or(a, b) % 2 == (if a % 2 == 1 || b % 2 == 1 then 1 else 0)
    ensures Or(a, b) / 2 == Or(a / 2, b / 2)
  {
    if a == 0 { assert Or(0, b) == b && Or(0, b / 2) == b / 2; }
    else if b == 0 { assert Or(a / 2, 0) == a / 2; }
  }

  lemma SameHalves(a: nat, b: nat)
    requires a % 2 == b % 2 && a / 2 == b / 2
    ensures a == b
  {
  }

  lemma {:induction false} AndOverOr(a: nat, b: nat, m: nat)
    ensures And(Or(a, b), m) == Or(And(a, m), And(b, m))
    decreases a + b
  {
    if a != 0 && b != 0 && m != 0 {
      AndOverOr(a / 2, b / 2, m / 2);
      OrStep(a, b);
      AndStep(Or(a, b), m);
      AndStep(a, m);
      AndStep(b, m);
      OrStep(And(a, m), And(b, m));
      SameHalves(And(Or(a, b), m), Or(And(a, m), And(b, m)));
    }
  }

  lemma {:induction false} AndTwice(a: nat, m: nat)
    ensures And(And(a, m), m) == And(a, m)
    decreases a
  {
    if a != 0 && m != 0 {
      AndTwice(a / 2, m / 2);
      AndStep(a, m);
      AndStep(And(a, m), m);
      SameHalves(And(And(a, m), m), And(a, m));
    }
  }

  /** Masking with n ones is taking the remainder. */
  lemma {:induction false} AndOnes(a: nat, n: nat)
    ensures And(a, Pow2(n) - 1) == a % Pow2(n)
    decreases n
  {
    if n > 0 {
      var p := Pow2(n - 1);
      AndOnes(a / 2, n - 1);
      AndStep(a, 2 * p - 1);
      assert (2 * p - 1) / 2 == p - 1 && (2 * p - 1) % 2 == 1;
      ModHalves(a, p);
      SameHalves(And(a, 2 * p - 1), a % (2 * p));
    }
  }

  lemma ModHalves(a: nat, p: nat)
    requires p > 0
    ensures a % (2 * p) % 2 == a % 2 && a % (2 * p) / 2 == a / 2 % p
  {
    var q, r := a / 2 / p, a / 2 % p;
    assert a / 2 == q * p + r;
    var s := 2 * r + a % 2;
    assert a == 2 * (q * p + r) + a % 2 == q * (2 * p) + s;
    assert 0 <= s < 2 * p;
    ModIs(a, 2 * p, q, s);
  }

  lemma ZeroFactor(e: int, d: int)
    requires -d < e * d < d
    ensures e == 0
  {
    assert e >= 1 ==> e * d >= 1 * d;
    assert e <= -1 ==> e * d <= -1 * d;
  }

  lemma ModIs(a: nat, d: nat, q: nat, r: nat)
    requires d > 0 && a == q * d + r && r < d
    ensures a % d == r && a / d == q
  {
    var q' := a / d;
    assert (q - q') * d == q * d - q' * d;
    ZeroFactor(q - q', d);
  }

  lemma AndDouble(a: nat, m: nat)
    ensures And(a, 2 * m) == 2 * And(a / 2, m)
  {
    hide And;
    AndStep(a, 2 * m);
    assert (2 * m) / 2 == m && (2 * m) % 2 == 0;
    SameHalves(And(a, 2 * m), 2 * And(a / 2, m));
  }

  /** m shifted left by n bits. */
  function Shl(m: nat, n: nat): nat { if n == 0 then m else 2 * Shl(m, n - 1) }

  function Shr(a: nat, n: nat): nat { if n == 0 then a else Shr(a / 2, n - 1) }

  /** Masking with a shifted mask is masking the shifted word. */
  lemma {:induction false} AndShifted(a: nat, m: nat, n: nat)
    ensures And(a, Shl(m, n)) == Shl(And(Shr(a, n), m), n)
    decreases n
  {
    if n > 0 {
      AndShifted(a / 2, m, n - 1);
      AndDouble(a, Shl(m, n - 1));
    }
  }

  /** OR adds nothing exactly when every bit added is there already. */
  lemma {:induction false} OrAbsorbs(a: nat, b: nat)
    ensures Or(a, b) == a <==> And(b, a) == b
    decreases a + b
  {
    if a != 0 && b != 0 {
      OrAbsorbs(a / 2, b / 2);
      OrStep(a, b);
      AndStep(b, a);
      if Or(a, b) == a { SameHalves(And(b, a), b); }
      if And(b, a) == b { SameHalves(Or(a, b), a); }
    }
  }

  lemma Pow2Four(n: nat)
    ensures Pow2(n + 4) == 16 * Pow2(n)
  {
    assert Pow2(n + 4) == 2 * Pow2(n + 3) == 4 * Pow2(n + 2) == 8 * Pow2(n + 1);
  }

  lemma ShlFour(m: nat, n: nat)
    ensures Shl(m, n + 4) == 16 * Shl(m, n)
  {
    assert Shl(m, n + 4) == 2 * Shl(m, n + 3) == 4 * Shl(m, n + 2) == 8 * Shl(m, n + 1);
  }

  lemma ShrFour(a: nat, n: nat)
    ensures Shr(a, n + 4) == Shr(a / 16, n)
  {
    assert Shr(a, n + 4) == Shr(a / 2, n + 3) == Shr(a / 2 / 2, n + 2) == Shr(a / 2 / 2 / 2, n + 1);
  }

  // ---------- bit by bit ----------

  /** Bit i of a word. */
  predicate Bit(w: nat, i: nat) { if i == 0 then w % 2 == 1 else Bit(w / 2, i - 1) }

  lemma {:induction false} AndBit(a: nat, b: nat, i: nat)
    ensures Bit(And(a, b), i) <==> Bit(a, i) && Bit(b, i)
    decreases i
  {
    AndStep(a, b);
    if i > 0 {
      AndBit(a / 2, b / 2, i - 1);
    }
  }

  lemma {:induction false} OrBit(a: nat, b: nat, i: nat)
    ensures Bit(Or(a, b), i) <==> Bit(a, i) || Bit(b, i)
    decreases i
  {
    OrStep(a, b);
    if i > 0 {
      OrBit(a / 2, b / 2, i - 1);
    }
  }

  lemma {:induction false} ShlBit(m: nat, n: nat, i: nat)
    ensures Bit(Shl(m, n), i) <==> i >= n && Bit(m, i - n)
    decreases n
  {
    if n > 0 && i > 0 {
      assert Shl(m, n) / 2 == Shl(m, n - 1);
      ShlBit(m, n - 1, i - 1);
    }
  }

  /** A word of n ones. */
  lemma {:induction false} OnesBit(n: nat, i: nat)
    ensures Bit(Pow2(n) - 1, i) <==> i < n
    decreases i
  {
    if n > 0 {
      var p := Pow2(n - 1);
      assert (2 * p - 1) / 2 == p - 1 && (2 * p - 1) % 2 == 1;
      if i > 0 {
        OnesBit(n - 1, i - 1);
      }
    } else if i > 0 {
      OnesBit(0, i - 1);
    }
  }

  lemma {:induction false} OneBit(i: nat)
    ensures Bit(1, i) <==> i == 0
    decreases i
  {
    if i > 0 {
      OnesBit(0, i - 1);
    }
  }

  /** Words without a common bit are put together by adding. */
  lemma {:induction false} OrIsSum(a: nat, b: nat)
    requires And(a, b) == 0
    ensures Or(a, b) == a + b
    decreases a + b
  {
    if a != 0 && b != 0 {
      AndStep(a, b);
      OrIsSum(a / 2, b / 2);
    }
  }
}
