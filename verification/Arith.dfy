/**
  The unsigned operators of the repository on naturals: minimum, powers of
  two, right shift, bitwise and, and what masking with 2^e - 1 computes.
 */
module Arith {
  function Min(a: nat, b: nat): nat {
    if a <= b then a else b
  }

  function Pow2(e: nat): (p: nat)
    ensures p > 0
  {
    if e == 0 then 1 else 2 * Pow2(e - 1)
  }

  lemma {:induction false} Pow2Monotone(a: nat, b: nat)
    requires a <= b
    ensures Pow2(a) <= Pow2(b)
    decreases b
  {
    if a < b { Pow2Monotone(a, b - 1); }
  }

  /** `a & b`, bit by bit. */
  function BitAnd(a: nat, b: nat): nat {
    if a == 0 || b == 0 then 0
    else (if a % 2 == 1 && b % 2 == 1 then 1 else 0) + 2 * BitAnd(a / 2, b / 2)
  }

  /** `a >> e`. */
  function Shr(a: nat, e: nat): nat {
    if e == 0 then a else Shr(a / 2, e - 1)
  }

  lemma {:induction false} MulLess(n: nat, a: nat, b: nat)
    requires a < b
    ensures n * b >= n * a + n
    decreases b
  {
    if b == a + 1 { assert n * b == n * a + n; }
    else { MulLess(n, a, b - 1); assert n * b == n * (b - 1) + n; }
  }

  lemma DivMod(a: nat, n: nat)
    requires n > 0
    ensures a == n * (a / n) + a % n
  {
  }

  lemma ModUnique(a: nat, n: nat, q: nat, r: nat)
    requires n > 0 && a == n * q + r && r < n
    ensures a % n == r && a / n == q
  {
    DivMod(a, n);
    if q < a / n { MulLess(n, q, a / n); }
    if a / n < q { MulLess(n, a / n, q); }
  }

  /** The last bit of a, and the rest of its residue, seen from twice the modulus. */
  lemma ModOfHalf(a: nat, n: nat)
    requires n > 0
    ensures a % (2 * n) == a % 2 + 2 * (a / 2 % n)
    ensures a / (2 * n) == a / 2 / n
  {
    var h := a / 2;
    var q, r := h / n, h % n;
    assert h == n * q + r;
    assert a == 2 * h + a % 2;
    assert (2 * n) * q == 2 * (n * q);
    ModUnique(a, 2 * n, q, a % 2 + 2 * r);
  }

  /** The e low bits of a. */
  function Low(a: nat, e: nat): (r: nat)
    ensures r < Pow2(e)
  {
    if e == 0 then 0 else a % 2 + 2 * Low(a / 2, e - 1)
  }

  lemma {:induction false} LowOfZero(e: nat)
    ensures Low(0, e) == 0
  {
    if e > 0 { LowOfZero(e - 1); }
  }

  /** Masking with 2^e - 1 keeps the e low bits. */
  lemma {:induction false} MaskIsLow(a: nat, e: nat)
    ensures BitAnd(a, Pow2(e) - 1) == Low(a, e)
    decreases e
  {
    if e > 0 {
      assert (Pow2(e) - 1) / 2 == Pow2(e - 1) - 1 && (Pow2(e) - 1) % 2 == 1;
      MaskIsLow(a / 2, e - 1);
      LowOfZero(e);
    }
  }

  /** The e low bits are the residue modulo 2^e. */
  lemma {:induction false} LowIsMod(a: nat, e: nat)
    ensures Low(a, e) == a % Pow2(e)
    decreases e
  {
    if e > 0 {
      LowIsMod(a / 2, e - 1);
      ModOfHalf(a, Pow2(e - 1));
    }
  }

  /** One more bit: the residue stays, or grows by the old modulus. */
  lemma {:induction false} LowGrows(a: nat, e: nat)
    ensures Low(a, e + 1) == Low(a, e) || Low(a, e + 1) == Low(a, e) + Pow2(e)
    decreases e
  {
    if e > 0 { LowGrows(a / 2, e - 1); }
  }

  lemma {:induction false} ShrIsDiv(a: nat, e: nat)
    ensures Shr(a, e) == a / Pow2(e)
    decreases e
  {
    if e > 0 {
      ShrIsDiv(a / 2, e - 1);
      ModOfHalf(a, Pow2(e - 1));
    }
  }

  lemma ShrOne(a: nat)
    ensures Shr(a, 1) == a / 2
  {
  }

  function CeilDiv(a: nat, b: nat): nat
    requires b > 0
  {
    a / b + if a % b == 0 then 0 else 1
  }

  lemma CeilDivLeast(a: nat, b: nat, c: nat)
    requires b > 0
    ensures a <= b * c <==> CeilDiv(a, b) <= c
  {
    DivMod(a, b);
    if c < a / b { MulLess(b, c, a / b); }
    if c > a / b { MulLess(b, a / b, c); }
  }
}
