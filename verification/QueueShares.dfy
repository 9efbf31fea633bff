/** The arithmetic of txgbe_alloc_q_vectors (src/txgbe_lib.c:1141-1158): repeated rounded-up division
    deals rings to vectors exactly as counting residues does. */
module QueueShares {
  import opened Bits

  /** DIV_ROUND_UP */
  function DivRoundUp(n: nat, d: nat): nat
    requires d > 0
  {
    (n + d - 1) / d
  }

  /** How many of the rings 0..n-1 are congruent to u modulo w. */
  function Share(n: nat, w: nat, u: nat): nat
    requires w > 0
  {
    n / w + (if u < n % w then 1 else 0)
  }

  /** Rings not yet dealt when vector u of w is reached. */
  function Left(n: nat, w: nat, u: nat): nat
    requires w > 0 && u <= w
  {
    MulNonNegative(n / w, w - u);
    (n / w) * (w - u) + (if u < n % w then n % w - u else 0)
  }

  lemma MulNonNegative(a: nat, b: nat)
    ensures a * b >= 0
  {}

  lemma LeftEnds(n: nat, w: nat)
    requires w > 0
    ensures Left(n, w, 0) == n && Left(n, w, w) == 0
  {
    DivModDef(n, w);
  }

  /** One round of the driver's loop deals vector u its share. */
  lemma DealStep(n: nat, w: nat, u: nat)
    requires u < w
    ensures DivRoundUp(Left(n, w, u), w - u) == Share(n, w, u)
    ensures Left(n, w, u) == Share(n, w, u) + Left(n, w, u + 1)
  {
    DivModDef(n, w);
    var a, b, d := n / w, n % w, w - u;
    assert a * d == d * a == a + a * (d - 1);
    if u < b {
      assert d * (a + 1) == d * a + d;
      DivModUnique(Left(n, w, u) + d - 1, d, a + 1, b - u - 1);
    } else {
      DivModUnique(Left(n, w, u) + d - 1, d, a, d - 1);
    }
  }

  /** Position k of vector u is a ring index in range, and determines u and k. */
  lemma StrideInRange(n: nat, w: nat, u: nat, k: nat)
    requires u < w && k < Share(n, w, u)
    ensures u + k * w < n && (u + k * w) % w == u && (u + k * w) / w == k
  {
    DivModDef(n, w);
    DivModUnique(u + k * w, w, k, u);
    if k < n / w {
      MulGap(w, k, n / w);
    }
  }

  /** Every ring index is a position of the vector it is congruent to. */
  lemma StrideCovers(n: nat, w: nat, i: nat)
    requires i < n && w > 0
    ensures i % w < w && i / w < Share(n, w, i % w) && i == i % w + (i / w) * w
  {
    DivModDef(n, w);
    DivModDef(i, w);
    if i / w > n / w {
      MulGap(w, n / w, i / w);
    }
  }

  /** The loads of any two vectors differ by at most one. */
  lemma SharesAreEven(n: nat, w: nat, u: nat, v: nat)
    requires w > 0
    ensures Share(n, w, u) <= Share(n, w, v) + 1
  {}

  /** With at least as many vectors as rings nobody gets two. */
  lemma FewRings(n: nat, w: nat, u: nat)
    requires n <= w && u < w
    ensures Share(n, w, u) <= 1 && (Share(n, w, u) == 1 <==> u < n)
  {
    if n < w {
      DivModUnique(n, w, 0, n);
    } else {
      DivModUnique(n, w, 1, 0);
    }
  }
}
