/** Division of a 64-bit number by a 32-bit base by shifting and subtracting (src/kcompat.c:609-640). */
module Div64 {
  import opened Bits

  const WORD32: nat := 0x1_0000_0000
  const WORD64: nat := 0x1_0000_0000_0000_0000
  const SIGN64: nat := 0x8000_0000_0000_0000

  lemma {:induction false} Distribute(a: nat, b: nat, c: nat)
    ensures (a + b) * c == a * c + b * c
  {}

  /** Divide the upper half first. All products and shifts are those of 32 and 64-bit words. */
  method Reduce(n: nat, base: nat) returns (res: nat, rem: nat)
    requires n < WORD64 && 0 < base < WORD32
    ensures res * base + rem == n
  {
    rem := n;
    DivModDef(n, WORD32);
    var high := n / WORD32;
    res := 0;
    if high >= base {
      DivModDef(high, base);
      ghost var h := high;
      high := high / base;
      ghost var p := high * base;
      assert p == base * high;
      assert p <= h;
      assert h < WORD32;
      res := high * WORD32;
      DivModUnique(p, WORD32, 0, p);
      rem := rem - (high * base) % WORD32 * WORD32;
      assert res * base == p * WORD32;
    }
  }

  /** Double base and digit together until the base reaches the remainder or its sign bit. */
  method Double(rem: nat, base: nat) returns (b: nat, d: nat, ghost k: nat)
    requires rem < WORD64 && 0 < base < WORD32
    ensures b == base * d && d == Pow2(k) && b < WORD64 && rem < 2 * b
  {
    b, d, k := base, 1, 0;
    while b < SIGN64 && b < rem
      invariant b == base * d && d == Pow2(k) && 0 < b < WORD64
      decreases rem - b
    {
      assert d <= b by {
        MulGap(d, 0, base);
        assert d * base == base * d;
      }
      DivModUnique(b + b, WORD64, 0, b + b);
      DivModUnique(d + d, WORD64, 0, d + d);
      assert base * (d + d) == b + b by {
        MulTwice(base, d);
      }
      b := (b + b) % WORD64;
      d := (d + d) % WORD64;
      k := k + 1;
    }
  }

  /** What the subtraction loop keeps: quotient and remainder so far, and the next digit. */
  ghost predicate Kept(n: nat, base: nat, res: nat, rem: nat, b: nat, d: nat, k: nat) {
    res * base + rem == n && d == Pow2(k) && b == base * d && rem < 2 * b
  }

  lemma Subtract(n: nat, base: nat, res: nat, rem: nat, b: nat, d: nat, k: nat)
    requires Kept(n, base, res, rem, b, d, k) && rem >= b && base > 0
    ensures Kept(n, base, res + d, rem - b, b, d, k) && res + d <= n
  {
    hide Pow2;
    Distribute(res, d, base);
    assert d * base == base * d;
    Bounded(n, base, res + d, rem - b);
  }

  lemma Halve(n: nat, base: nat, res: nat, rem: nat, b: nat, d: nat, k: nat)
    requires Kept(n, base, res, rem, b, d, k) && rem < b && k > 0
    ensures Kept(n, base, res, rem, b / 2, d / 2, k - 1) && d / 2 > 0
  {
    var h := Pow2(k - 1);
    assert d == 2 * h && d / 2 == h;
    MulTwice(base, h);
    assert b == 2 * (base * h);
  }

  lemma Last(n: nat, base: nat, res: nat, rem: nat, b: nat, d: nat)
    requires Kept(n, base, res, rem, b, d, 0) && rem < b
    ensures d / 2 == 0 && res == n / base && rem == n % base
  {
    assert Pow2(0) == 1;
    assert res * base == base * res;
    DivModUnique(n, base, res, rem);
  }

  lemma Bounded(n: nat, base: nat, res: nat, rem: nat)
    requires res * base + rem == n && base > 0
    ensures rem <= n && res <= n
  {
    MulGap(res, 0, base);
    assert res * base == base * res;
  }

  /** _kc__div64_32: the quotient to store and the remainder to return. */
  method Div(n: nat, base: nat) returns (q: nat, r: nat)
    requires n < WORD64 && 0 < base < WORD32
    ensures q == n / base && r == n % base
  {
    hide Kept, Pow2;
    var res: nat, rem: nat := Reduce(n, base);
    Bounded(n, base, res, rem);
    var b: nat, d: nat, k: nat := Double(rem, base);
    KeptAtStart(n, base, res, rem, b, d, k);
    while true
      invariant Kept(n, base, res, rem, b, d, k)
      decreases k
    {
      KeptBelow(n, base, res, rem, b, d, k);
      if rem >= b {
        Subtract(n, base, res, rem, b, d, k);
        rem := rem - b;
        assert res + d < WORD64;
        res := res + d;
      }
      if k == 0 {
        Last(n, base, res, rem, b, d);
      } else {
        Halve(n, base, res, rem, b, d, k);
      }
      b := b / 2;
      d := d / 2;
      if d == 0 {
        break;
      }
      k := k - 1;
    }
    return res, rem;
  }

  lemma KeptBelow(n: nat, base: nat, res: nat, rem: nat, b: nat, d: nat, k: nat)
    requires Kept(n, base, res, rem, b, d, k)
    ensures rem < 2 * b
  {}

  lemma KeptAtStart(n: nat, base: nat, res: nat, rem: nat, b: nat, d: nat, k: nat)
    requires res * base + rem == n && d == Pow2(k) && b == base * d && rem < 2 * b
    ensures Kept(n, base, res, rem, b, d, k)
  {}
}
