/** Bitwise operations of C on unsigned words, written as recursion over binary digits so that
    masks, shifts and packed register fields can be reasoned about as integer arithmetic. */
module Bits {

  function Pow2(n: nat): (p: nat)
    ensures p > 0
  {
    if n == 0 then 1 else 2 * Pow2(n - 1)
  }

  function Half(x: nat): nat {
    x / 2
  }

  predicate Odd(x: nat) {
    x % 2 == 1
  }

  function Bit(b: bool): nat {
    if b then 1 else 0
  }

  function Min(a: nat, b: nat): nat {
    if a < b then a else b
  }

  /** `x & y` */
  function And(x: nat, y: nat): nat
    decreases x
  {
    if x == 0 || y == 0 then 0 else Bit(Odd(x) && Odd(y)) + 2 * And(Half(x), Half(y))
  }

  /** `x | y` */
  function Or(x: nat, y: nat): nat
    decreases x + y
  {
    if x == 0 then y
    else if y == 0 then x
    else Bit(Odd(x) || Odd(y)) + 2 * Or(Half(x), Half(y))
  }

  /** `~x` on an n-bit word */
  function Not(x: nat, n: nat): nat
    requires x < Pow2(n)
  {
    Pow2(n) - 1 - x
  }

  /** `x << n` */
  function Shl(x: nat, n: nat): nat
    decreases n, x
  {
    if n == 0 then x else 2 * Shl(x, n - 1)
  }

  /** `x >> n` */
  function Shr(x: nat, n: nat): nat
    decreases n, x
  {
    if n == 0 then x else Shr(Half(x), n - 1)
  }

  /** The `width`-bit field of `x` that starts at bit `shift`. */
  function Field(x: nat, shift: nat, width: nat): nat {
    Shr(x, shift) % Pow2(width)
  }

  // ----- halves

  lemma HalfOdd(x: nat)
    ensures x == 2 * Half(x) + Bit(Odd(x))
    ensures x > 0 ==> Half(x) < x
  {}

  lemma HalfUnique(h: nat, b: bool)
    ensures Half(2 * h + Bit(b)) == h && Odd(2 * h + Bit(b)) == b
  {}

  // ----- division

  lemma MulTwice(y: nat, p: nat)
    ensures y * (2 * p) == 2 * (y * p)
  {}

  lemma MulGap(d: nat, a: nat, b: nat)
    requires a < b
    ensures d * a + d <= d * b
  {
    assert d * b == d * a + d * (b - a);
    assert d * (b - a) == d + d * (b - a - 1);
  }

  lemma DivModDef(x: nat, d: nat)
    requires d > 0
    ensures x / d >= 0 && x == d * (x / d) + x % d && 0 <= x % d < d
  {}

  lemma DivModUnique(x: nat, d: nat, q: nat, r: nat)
    requires d > 0 && r < d && x == d * q + r
    ensures x / d == q && x % d == r
  {
    DivModDef(x, d);
    if x / d > q {
      MulGap(d, q, x / d);
    } else if x / d < q {
      MulGap(d, x / d, q);
    }
  }

  lemma DivTwice(x: nat, p: nat)
    requires p > 0
    ensures x / (2 * p) == Half(x) / p
    ensures x % (2 * p) == Bit(Odd(x)) + 2 * (Half(x) % p)
  {
    hide Half, Odd;
    HalfOdd(x);
    var h := Half(x);
    DivModDef(h, p);
    MulTwice(h / p, p);
    assert (2 * p) * (h / p) == 2 * (p * (h / p)) by {
      MulTwice(h / p, p);
    }
    DivModUnique(x, 2 * p, h / p, Bit(Odd(x)) + 2 * (h % p));
  }

  // ----- powers and shifts

  lemma {:induction false} ShlIsMul(x: nat, n: nat)
    ensures Shl(x, n) == x * Pow2(n)
  {
    if n > 0 {
      ShlIsMul(x, n - 1);
      MulTwice(x, Pow2(n - 1));
    }
  }

  lemma {:induction false} ShrIsDiv(x: nat, n: nat)
    ensures Shr(x, n) == x / Pow2(n)
    decreases n
  {
    hide Half;
    if n > 0 {
      ShrIsDiv(Half(x), n - 1);
      DivTwice(x, Pow2(n - 1));
    }
  }

  lemma {:induction false} Pow2Add(m: nat, n: nat)
    ensures Pow2(m + n) == Shl(Pow2(n), m)
  {
    if m > 0 {
      Pow2Add(m - 1, n);
    }
  }

  lemma Pow2Next(n: nat)
    ensures Pow2(n + 1) == 2 * Pow2(n)
  {}

  lemma {:induction false} Pow2Monotone(m: nat, n: nat)
    requires m <= n
    ensures Pow2(m) <= Pow2(n)
    decreases n
  {
    if m < n {
      Pow2Monotone(m, n - 1);
    }
  }

  lemma Pow2Zero()
    ensures Pow2(0) == 1
  {}

  lemma {:induction false} Pow2Sum(a: nat, b: nat)
    ensures Pow2(a + b) == Pow2(a) * Pow2(b)
    decreases b
  {
    hide Pow2;
    if b == 0 {
      Pow2Zero();
    } else {
      Pow2Sum(a, b - 1);
      Pow2Next(b - 1);
      Pow2Next(a + b - 1);
      MulTwice(Pow2(a), Pow2(b - 1));
    }
  }

  lemma Pow2Values()
    ensures Pow2(1) == 2 && Pow2(2) == 4 && Pow2(3) == 8 && Pow2(4) == 16 && Pow2(5) == 32 && Pow2(6) == 64
    ensures Pow2(7) == 0x80 && Pow2(8) == 0x100 && Pow2(9) == 0x200 && Pow2(12) == 0x1000
    ensures Pow2(14) == 0x4000 && Pow2(16) == 0x1_0000 && Pow2(18) == 0x4_0000
    ensures Pow2(30) == 0x4000_0000 && Pow2(31) == 0x8000_0000 && Pow2(32) == 0x1_0000_0000
  {
    assert Pow2(16) == 0x1_0000;
    Pow2Add(8, 16);
    Pow2Add(6, 24);
    Pow2Add(2, 30);
  }

  // ----- and

  lemma AndStep(x: nat, y: nat)
    ensures And(x, y) == Bit(Odd(x) && Odd(y)) + 2 * And(Half(x), Half(y))
  {}

  lemma {:induction false} AndCommutes(x: nat, y: nat)
    ensures And(x, y) == And(y, x)
    decreases x
  {
    hide Half, Odd;
    if x > 0 && y > 0 {
      HalfOdd(x);
      AndCommutes(Half(x), Half(y));
    }
  }

  /** Masking with n ones keeps the low n bits. */
  lemma {:induction false} AndLow(x: nat, n: nat)
    ensures And(x, Pow2(n) - 1) == x % Pow2(n)
    decreases n
  {
    hide Half, Odd, And;
    if n == 0 {
      AndZero(x);
    } else {
      var p := Pow2(n - 1);
      AndLow(Half(x), n - 1);
      DivTwice(x, p);
      AndStep(x, 2 * p - 1);
      HalfUnique(p - 1, true);
    }
  }

  lemma AndZero(x: nat)
    ensures And(x, 0) == 0 && x % 1 == 0
  {}

  /** The same, for a mask given as a number. */
  lemma Mask(x: nat, n: nat, m: nat)
    requires m == Pow2(n) - 1
    ensures And(x, m) == x % (m + 1)
    ensures x <= m ==> And(x, m) == x
  {
    hide And;
    AndLow(x, n);
    if x <= m {
      DivModUnique(x, m + 1, 0, x);
    }
  }

  /** A mask shifted left by n selects from the bits above n. */
  lemma {:induction false} AndShift(x: nat, y: nat, n: nat)
    ensures And(x, Shl(y, n)) == Shl(And(Shr(x, n), y), n)
    decreases n
  {
    hide Half, Odd, And;
    if n > 0 {
      AndShift(Half(x), y, n - 1);
      AndStep(x, Shl(y, n));
      HalfUnique(Shl(y, n - 1), false);
    }
  }

  /** A mask of k ones above n zeros. */
  lemma AndHighMask(x: nat, n: nat, k: nat, m: nat)
    requires m == Pow2(n) * (Pow2(k) - 1)
    ensures And(x, m) == Pow2(n) * (x / Pow2(n) % Pow2(k))
  {
    hide And, Shl, Shr, Pow2;
    var p, c := Pow2(n), Pow2(k);
    ShlIsMul(c - 1, n);
    assert Shl(c - 1, n) == m by {
      assert (c - 1) * p == p * (c - 1);
    }
    AndShift(x, c - 1, n);
    AndLow(Shr(x, n), k);
    ShrIsDiv(x, n);
    var f := x / p % c;
    ShlIsMul(f, n);
    assert f * p == p * f;
  }

  /** A word splits into the part a mask keeps and the part its complement keeps. */
  lemma {:induction false} AndComplement(x: nat, y: nat, n: nat)
    requires x < Pow2(n) && y < Pow2(n)
    ensures And(x, Not(y, n)) == x - And(x, y)
    decreases n
  {
    hide Half, Odd, And;
    if n == 0 {
      AndZero(x);
    } else {
      HalfOdd(x);
      HalfOdd(y);
      AndComplement(Half(x), Half(y), n - 1);
      AndStep(x, y);
      AndStep(x, Not(y, n));
      HalfUnique(Not(Half(y), n - 1), !Odd(y));
    }
  }

  // ----- or

  lemma OrStep(x: nat, y: nat)
    ensures Or(x, y) == Bit(Odd(x) || Odd(y)) + 2 * Or(Half(x), Half(y))
  {}

  lemma OrZero(y: nat)
    ensures Or(0, y) == y
  {}

  /** Or of a low part and a shifted high part is their sum: the fields do not overlap. */
  lemma {:induction false} OrDisjoint(lo: nat, hi: nat, n: nat)
    requires lo < Pow2(n)
    ensures Or(lo, Shl(hi, n)) == lo + Shl(hi, n)
    decreases n
  {
    hide Half, Odd, Or;
    if n == 0 {
      OrZero(Shl(hi, 0));
    } else {
      HalfOdd(lo);
      OrDisjoint(Half(lo), hi, n - 1);
      OrStep(lo, Shl(hi, n));
      HalfUnique(Shl(hi, n - 1), false);
    }
  }

  lemma OrShl(lo: nat, hi: nat, n: nat, p: nat)
    requires p == Pow2(n) && lo < p
    ensures Or(lo, Shl(hi, n)) == lo + p * hi
  {
    hide Or, Shl, Pow2;
    OrDisjoint(lo, hi, n);
    ShlIsMul(hi, n);
  }

  lemma {:induction false} OrCommutes(x: nat, y: nat)
    ensures Or(x, y) == Or(y, x)
    decreases x + y
  {
    hide Half, Odd;
    if x > 0 && y > 0 {
      HalfOdd(x);
      HalfOdd(y);
      OrCommutes(Half(x), Half(y));
    }
  }

  lemma {:induction false} OrAssociates(x: nat, y: nat, z: nat)
    ensures Or(Or(x, y), z) == Or(x, Or(y, z))
    decreases x + y + z
  {
    hide Half, Odd, Or;
    if x == 0 || y == 0 || z == 0 {
      OrZeros(x, y, z);
    } else {
      HalfOdd(x);
      HalfOdd(y);
      HalfOdd(z);
      OrAssociates(Half(x), Half(y), Half(z));
      OrStep(x, y);
      OrStep(y, z);
      OrStep(Or(x, y), z);
      OrStep(x, Or(y, z));
      HalfUnique(Or(Half(x), Half(y)), Odd(x) || Odd(y));
      HalfUnique(Or(Half(y), Half(z)), Odd(y) || Odd(z));
    }
  }

  lemma OrZeros(x: nat, y: nat, z: nat)
    requires x == 0 || y == 0 || z == 0
    ensures Or(Or(x, y), z) == Or(x, Or(y, z))
  {}

  lemma {:induction false} TestBitOr(x: nat, y: nat, n: nat)
    ensures TestBit(Or(x, y), n) <==> TestBit(x, n) || TestBit(y, n)
    decreases n
  {
    hide Half, Odd, Or;
    OrStep(x, y);
    HalfUnique(Or(Half(x), Half(y)), Odd(x) || Odd(y));
    if n > 0 {
      TestBitOr(Half(x), Half(y), n - 1);
    }
  }

  lemma {:induction false} OrBound(x: nat, y: nat, n: nat)
    requires x < Pow2(n) && y < Pow2(n)
    ensures Or(x, y) < Pow2(n)
    decreases n
  {
    hide Half, Odd, Or;
    if n == 0 {
      OrZero(y);
    } else {
      HalfOdd(x);
      HalfOdd(y);
      OrBound(Half(x), Half(y), n - 1);
      OrStep(x, y);
    }
  }

  // ----- single bits

  /** Bit n of x. */
  predicate TestBit(x: nat, n: nat) {
    Odd(Shr(x, n))
  }

  lemma {:induction false} TestBitAnd(x: nat, y: nat, n: nat)
    ensures TestBit(And(x, y), n) <==> TestBit(x, n) && TestBit(y, n)
    decreases n
  {
    hide Half, Odd, And;
    AndStep(x, y);
    HalfUnique(And(Half(x), Half(y)), Odd(x) && Odd(y));
    if n > 0 {
      TestBitAnd(Half(x), Half(y), n - 1);
    }
  }

  lemma {:induction false} TestBitNot(y: nat, width: nat, n: nat)
    requires y < Pow2(width) && n < width
    ensures TestBit(Not(y, width), n) <==> !TestBit(y, n)
    decreases n
  {
    hide Half, Odd;
    HalfOdd(y);
    HalfUnique(Not(Half(y), width - 1), !Odd(y));
    if n > 0 {
      TestBitNot(Half(y), width - 1, n - 1);
    }
  }

  lemma {:induction false} TestBitShl(m: nat, n: nat)
    ensures TestBit(Shl(1, m), n) <==> m == n
    decreases n
  {
    hide Half, Odd;
    if m > 0 {
      HalfUnique(Shl(1, m - 1), false);
      if n > 0 {
        TestBitShl(m - 1, n - 1);
      }
    } else {
      HalfUnique(0, true);
      if n > 0 {
        ZeroBits(n - 1);
      }
    }
  }

  lemma {:induction false} ZeroBits(n: nat)
    ensures Shr(0, n) == 0 && !TestBit(0, n)
    decreases n
  {
    if n > 0 {
      ZeroBits(n - 1);
    }
  }

  lemma {:induction false} ShlBound(m: nat, n: nat)
    requires m < n
    ensures Shl(1, m) < Pow2(n)
    decreases m
  {
    if m > 0 {
      ShlBound(m - 1, n - 1);
    }
  }

  /** A word under a one-bit mask is nonzero iff that bit is set. */
  lemma {:induction false} AndOneBit(x: nat, n: nat)
    ensures And(x, Shl(1, n)) != 0 <==> TestBit(x, n)
    decreases n
  {
    hide Half, Odd, And;
    AndStep(x, Shl(1, n));
    if n > 0 {
      HalfUnique(Shl(1, n - 1), false);
      AndOneBit(Half(x), n - 1);
    } else {
      HalfUnique(0, true);
      AndZero(Half(x));
    }
  }

  /** The word whose set bits are those listed. */
  function WordOf(bits: seq<nat>): nat {
    if bits == [] then 0 else Or(Shl(1, bits[0]), WordOf(bits[1..]))
  }

  lemma {:induction false} WordOfBits(bits: seq<nat>, n: nat)
    ensures TestBit(WordOf(bits), n) <==> n in bits
    decreases |bits|
  {
    hide Shl, Or, TestBit;
    if bits == [] {
      ZeroBits(n);
    } else {
      WordOfBits(bits[1..], n);
      TestBitOr(Shl(1, bits[0]), WordOf(bits[1..]), n);
      TestBitShl(bits[0], n);
      assert bits == [bits[0]] + bits[1..];
    }
  }

  lemma {:induction false} WordOfBound(bits: seq<nat>, width: nat)
    requires forall k | 0 <= k < |bits| :: bits[k] < width
    ensures WordOf(bits) < Pow2(width)
    decreases |bits|
  {
    hide Shl, Or;
    if bits != [] {
      ShlBound(bits[0], width);
      WordOfBound(bits[1..], width);
      OrBound(Shl(1, bits[0]), WordOf(bits[1..]), width);
    }
  }

  /** Write-one-to-clear. */
  function ClearBits(x: nat, mask: nat, width: nat): nat
    requires mask < Pow2(width)
  {
    And(x, Not(mask, width))
  }

  lemma ClearOneBit(x: nat, m: nat, width: nat, n: nat)
    requires m < width && n < width
    ensures Shl(1, m) < Pow2(width)
    ensures TestBit(ClearBits(x, Shl(1, m), width), n) <==> TestBit(x, n) && m != n
  {
    hide And, Not, TestBit, Shl;
    ShlBound(m, width);
    TestBitAnd(x, Not(Shl(1, m), width), n);
    TestBitNot(Shl(1, m), width, n);
    TestBitShl(m, n);
  }

  // ----- fields

  lemma FieldBound(w: nat, shift: nat, width: nat)
    ensures Field(w, shift, width) < Pow2(width)
  {}

  /** A field is recovered from the word it was added into. */
  lemma FieldAt(w: nat, shift: nat, width: nat, lo: nat, mid: nat, hi: nat)
    requires lo < Pow2(shift) && mid < Pow2(width)
    requires w == lo + Pow2(shift) * (mid + Pow2(width) * hi)
    ensures Field(w, shift, width) == mid
  {
    DivModUnique(w, Pow2(shift), mid + Pow2(width) * hi, lo);
    ShrIsDiv(w, shift);
    DivModUnique(mid + Pow2(width) * hi, Pow2(width), hi, mid);
  }
}
