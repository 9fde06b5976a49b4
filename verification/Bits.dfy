/** Indices of different widths into the same bucket space. */
module Bits {

  function Pow2(bits: nat): (p: nat)
    ensures p > 0
  {
    if bits == 0 then 1 else 2 * Pow2(bits - 1)
  }

  /** The low `bits` bits of a bucket: its index in a counter of that width. */
  function LowBits(bucket: nat, bits: nat): (i: nat)
    ensures i < Pow2(bits)
  {
    bucket % Pow2(bits)
  }

  lemma {:induction false} Pow2Splits(m: nat, n: nat)
    ensures Pow2(m + n) == Pow2(m) * Pow2(n)
  {
    if n > 0 {
      Pow2Splits(m, n - 1);
      assert Pow2(m) * (2 * Pow2(n - 1)) == 2 * (Pow2(m) * Pow2(n - 1));
    }
  }

  lemma Times(k: int, d: int)
    requires d > 0 && -d < k * d < d
    ensures k == 0
  {
  }

  lemma Euclid(q: nat, r: nat, q': nat, r': nat, d: nat)
    requires d > 0 && r < d && r' < d && q * d + r == q' * d + r'
    ensures q == q' && r == r'
  {
    assert (q - q') * d == r' - r;
    Times(q - q', d);
  }

  lemma DivMod(q: nat, d: nat, r: nat)
    requires r < d
    ensures (q * d + r) / d == q && (q * d + r) % d == r
  {
    var a := q * d + r;
    Euclid(a / d, a % d, q, r, d);
  }

  lemma QuotientBelow(b: nat, d: nat, e: nat)
    requires d > 0 && b < d * e
    ensures b / d < e
  {
  }

  /** The narrow index is the low part of the wide one. */
  lemma LowBitsNest(b: nat, m: nat, n: nat)
    requires m <= n
    ensures LowBits(LowBits(b, n), m) == LowBits(b, m)
  {
    Pow2Splits(m, n - m);
    ModNests(b, Pow2(m), Pow2(n - m));
  }

  lemma ModNests(b: nat, d: nat, e: nat)
    requires d > 0 && e > 0 && d * e > 0
    ensures b % (d * e) % d == b % d
  {
    var q, w := b / (d * e), b % (d * e);
    var t, r := w / d, w % d;
    assert b == q * (d * e) + w;
    assert w == t * d + r;
    Regroup(q, e, t, d, r);
    DivMod(q * e + t, d, r);
  }

  lemma Regroup(q: nat, e: nat, t: nat, d: nat, r: nat)
    ensures q * (d * e) + (t * d + r) == (q * e + t) * d + r
  {
    assert q * (d * e) == (q * e) * d;
  }

  /** Indices of two widths coincide exactly when the wider one fits into the narrower. */
  lemma WidthsAgree(b: nat, m: nat, n: nat)
    requires m <= n
    ensures LowBits(b, m) == LowBits(b, n) <==> LowBits(b, n) < Pow2(m)
  {
    LowBitsNest(b, m, n);
    if LowBits(b, n) < Pow2(m) {
      DivMod(0, Pow2(m), LowBits(b, n));
    }
  }

  /** The j-th number with remainder `i`, counting in steps of `d`. */
  function Rung(i: nat, d: nat, j: nat): nat {
    if j == 0 then i else Rung(i, d, j - 1) + d
  }

  lemma {:induction false} RungIs(i: nat, d: nat, j: nat)
    ensures Rung(i, d, j) == j * d + i
  {
    if j > 0 {
      RungIs(i, d, j - 1);
      assert j * d == (j - 1) * d + d;
    }
  }

  lemma {:induction false} RungsClimb(i: nat, d: nat, j: nat, k: nat)
    requires j < k && d > 0
    ensures Rung(i, d, j) < Rung(i, d, k)
  {
    if j < k - 1 {
      RungsClimb(i, d, j, k - 1);
    }
  }

  lemma RungIndex(i: nat, d: nat, j: nat)
    requires i < d
    ensures Rung(i, d, j) % d == i
  {
    RungIs(i, d, j);
    DivMod(j, d, i);
  }

  function Rungs(i: nat, d: nat, n: nat): (s: seq<nat>)
    ensures |s| == n
  {
    seq(n, (j: nat) => Rung(i, d, j))
  }

  /** Every number is a rung above its remainder. */
  lemma OwnRung(b: nat, d: nat, n: nat) returns (j: nat)
    requires d > 0 && b < d * n
    ensures j < n && Rung(b % d, d, j) == b
  {
    j := b / d;
    QuotientBelow(b, d, n);
    RungIs(b % d, d, j);
  }

  /** The first n rungs are the numbers below d * n with remainder `i`. */
  lemma RungsHave(i: nat, d: nat, n: nat, b: nat)
    requires i < d && b < d * n
    ensures b in Rungs(i, d, n) <==> b % d == i
  {
    if j :| 0 <= j < n && Rungs(i, d, n)[j] == b {
      RungIndex(i, d, j);
    }
    var j := OwnRung(b, d, n);
    assert b % d == i ==> Rungs(i, d, n)[j] == b;
  }

  lemma Widths()
    ensures Pow2(10) == 0x400 && Pow2(15) == 0x8000 && Pow2(17) == 0x2_0000
  {
    assert Pow2(5) == 32;
    Pow2Splits(5, 5);
    Pow2Splits(10, 5);
    Pow2Splits(15, 2);
    assert Pow2(2) == 4;
  }
}
