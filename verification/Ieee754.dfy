/** Single-precision numbers as 32-bit patterns, and IEEE 754-2008's own statement of
    what a correctly rounded result is (section 4.3.1, roundTiesToEven).  Nothing here
    mentions how NEMU computes: it is the reference the FPU is judged against. */
module Ieee754 {
  import opened Common

  const INF_BITS: int := 0x7f80_0000     // exponent field 255, fraction 0
  const SIGN_BIT: int := 0x8000_0000
  const HIDDEN: int := 0x80_0000         // 2^23

  //// The three fields of a pattern

  function Sign(w: Word): int { w / SIGN_BIT }
  function Exponent(w: Word): int { w / HIDDEN % 256 }
  function Fraction(w: Word): int { w % HIDDEN }
  function Unsigned(w: Word): int { w % SIGN_BIT }

  predicate IsFinite(w: Word) { Exponent(w) < 255 }
  predicate IsInf(w: Word) { Exponent(w) == 255 && Fraction(w) == 0 }
  predicate IsNaN(w: Word) { Exponent(w) == 255 && Fraction(w) != 0 }
  predicate IsZero(w: Word) { Unsigned(w) == 0 }

  /** Flipping the sign bit, nothing else. */
  function Negate(w: Word): Word {
    if Sign(w) == 0 then w + SIGN_BIT else w - SIGN_BIT
  }

  /** Assembling a pattern from its fields; the fraction is cut to 23 bits. */
  function Pack(sign: int, exponent: int, fraction: int): Word
    requires 0 <= sign <= 1 && 0 <= exponent < 256 && 0 <= fraction
  {
    sign * SIGN_BIT + exponent * HIDDEN + fraction % HIDDEN
  }

  //// Exact values

  /** x * 2^e for every integer e. */
  function Ldexp(x: real, e: int): real
    decreases if e >= 0 then e else -e
  {
    if e == 0 then x else if e > 0 then 2.0 * Ldexp(x, e - 1) else Ldexp(x, e + 1) / 2.0
  }

  lemma LdexpStep(x: real, e: int)
    ensures Ldexp(x, e + 1) == 2.0 * Ldexp(x, e)
  {
  }

  /** Scaling is linear. */
  lemma {:induction false} LdexpSum(x: real, y: real, e: int)
    ensures Ldexp(x + y, e) == Ldexp(x, e) + Ldexp(y, e)
    decreases if e >= 0 then e else -e
  {
    if e > 0 {
      LdexpSum(x, y, e - 1);
    } else if e < 0 {
      LdexpSum(x, y, e + 1);
    }
  }

  /** Scaling is strictly increasing and keeps zero. */
  lemma {:induction false} LdexpOrder(x: real, y: real, e: int)
    ensures x < y <==> Ldexp(x, e) < Ldexp(y, e)
    ensures x == 0.0 <==> Ldexp(x, e) == 0.0
    decreases if e >= 0 then e else -e
  {
    if e > 0 {
      LdexpOrder(x, y, e - 1);
    } else if e < 0 {
      LdexpOrder(x, y, e + 1);
    }
  }

  /** A factor 2 may be moved into the exponent. */
  lemma LdexpShift(x: real, e: int)
    ensures Ldexp(2.0 * x, e) == Ldexp(x, e + 1)
  {
    LdexpSum(x, x, e);
    LdexpStep(x, e);
  }

  lemma {:induction false} LdexpAdd(x: real, e: int, k: nat)
    ensures Ldexp(x, e + k) == Ldexp(Ldexp(x, k), e)
  {
    if k > 0 {
      LdexpAdd(x, e, k - 1);
      hide Ldexp;
      LdexpStep(x, e + k - 1);
      LdexpStep(x, k - 1);
      var y := Ldexp(x, k - 1);
      LdexpSum(y, y, e);
    }
  }

  /** The significand with its hidden bit. */
  function Significand(w: Word): int {
    if Exponent(w) == 0 then Fraction(w) else HIDDEN + Fraction(w)
  }

  /** The exponent a pattern is read with: subnormals share exponent 1. */
  function Scale(w: Word): int {
    if Exponent(w) == 0 then 1 else Exponent(w)
  }

  /** The magnitude of the unsigned pattern `p`.  The pattern of infinity gets the value the
      next binary exponent would have, which is where overflow rounding measures to. */
  function Magnitude(p: int): real
    requires 0 <= p <= INF_BITS
  {
    Ldexp(Significand(p) as real, Scale(p) - 150)
  }

  function Value(w: Word): real
    requires IsFinite(w)
  {
    if Sign(w) == 0 then Magnitude(Unsigned(w)) else -Magnitude(Unsigned(w))
  }

  function Abs(x: real): real { if x < 0.0 then -x else x }

  //// Section 4.3.1

  /** Where overflow begins: 2^127 * (2 - 2^-24), written (2^25 - 1) * 2^103. */
  function OverflowBound(): real { Ldexp(33554431.0, 103) }

  /** `p` is the unsigned pattern that roundTiesToEven delivers for the exact magnitude `m`:
      infinity from the overflow bound on, otherwise the nearest of all finite patterns, the
      even one when another is equally near. */
  ghost predicate RoundsTo(m: real, p: int) {
    if m >= OverflowBound() then p == INF_BITS
    else
      && 0 <= p < INF_BITS
      && forall y :: 0 <= y < INF_BITS && y != p ==>
           || Abs(Magnitude(p) - m) < Abs(Magnitude(y) - m)
           || (Abs(Magnitude(p) - m) == Abs(Magnitude(y) - m) && p % 2 == 0)
  }

  /** `r` is the correctly rounded form of the exact nonzero value `v`. */
  ghost predicate Rounded(v: real, r: Word) {
    && Sign(r) == (if v < 0.0 then 1 else 0)
    && RoundsTo(Abs(v), Unsigned(r))
  }

  //// Sections 5.4.1, 6.1, 6.2 and 6.3: the operations

  ghost predicate IsSum(a: Word, b: Word, r: Word) {
    if IsNaN(a) || IsNaN(b) then IsNaN(r)
    else if IsInf(a) then (if b == Negate(a) then IsNaN(r) else r == a)
    else if IsInf(b) then r == b
    else if Value(a) + Value(b) == 0.0 then
      // an exact zero sum is +0 unless both operands are negative
      r == (if Sign(a) == 1 && Sign(b) == 1 then SIGN_BIT else 0)
    else Rounded(Value(a) + Value(b), r)
  }

  ghost predicate IsDifference(a: Word, b: Word, r: Word) {
    if IsNaN(b) then IsNaN(r) else IsSum(a, Negate(b), r)
  }

  /** The sign of a product or quotient. */
  function SignXor(a: Word, b: Word): int {
    if Sign(a) == Sign(b) then 0 else 1
  }

  ghost predicate IsProduct(a: Word, b: Word, r: Word) {
    if IsNaN(a) || IsNaN(b) then IsNaN(r)
    else if (IsInf(a) && IsZero(b)) || (IsZero(a) && IsInf(b)) then IsNaN(r)
    else if IsInf(a) || IsInf(b) then r == SignXor(a, b) * SIGN_BIT + INF_BITS
    else
      && Sign(r) == SignXor(a, b)
      && RoundsTo(Magnitude(Unsigned(a)) * Magnitude(Unsigned(b)), Unsigned(r))
  }

  //// Facts about magnitudes

  lemma FieldsOf(w: Word)
    ensures w == Sign(w) * SIGN_BIT + Unsigned(w)
    ensures Unsigned(w) == Exponent(w) * HIDDEN + Fraction(w)
    ensures 0 <= Sign(w) <= 1
    ensures Exponent(Unsigned(w)) == Exponent(w) && Fraction(Unsigned(w)) == Fraction(w)
    ensures 0 <= Fraction(w) < HIDDEN && 0 <= Exponent(w) < 256
    ensures IsFinite(w) <==> Unsigned(w) < INF_BITS
    ensures IsInf(w) <==> Unsigned(w) == INF_BITS
  {
  }

  lemma FieldsOfPack(sign: int, exponent: int, fraction: int)
    requires 0 <= sign <= 1 && 0 <= exponent < 256 && 0 <= fraction
    ensures var w := Pack(sign, exponent, fraction);
      && Sign(w) == sign && Exponent(w) == exponent && Fraction(w) == fraction % HIDDEN
      && Unsigned(w) == exponent * HIDDEN + fraction % HIDDEN
  {
  }

  /** Counting patterns: with `n` units of 2^(e-150), 2^23 <= n <= 2^24 for e > 1 and n <= 2^24
      for e == 1, the pattern is (e-1) * 2^23 + n, the carry into the exponent included. */
  lemma PatternOf(e: int, n: int)
    requires 1 <= e <= 254 && 0 <= n <= 0x100_0000 && (e == 1 || n >= HIDDEN)
    ensures var p := (e - 1) * HIDDEN + n;
      0 <= p <= INF_BITS && Magnitude(p) == Ldexp(n as real, e - 150)
  {
    hide Ldexp;
    var p := (e - 1) * HIDDEN + n;
    if n < HIDDEN {
      assert p / HIDDEN == 0;
    } else if n < 0x100_0000 {
      assert p / HIDDEN == e && p % HIDDEN == n - HIDDEN;
    } else {
      assert p / HIDDEN == e + 1 && p % HIDDEN == 0;
      LdexpShift(HIDDEN as real, e - 150);
    }
  }

  /** Consecutive patterns differ by one unit in the last place. */
  lemma MagnitudeStep(p: int)
    requires 0 <= p < INF_BITS
    ensures Magnitude(p) < Magnitude(p + 1)
  {
    hide Magnitude, Ldexp;
    var e := Scale(p);
    var n := Significand(p);
    assert p == (e - 1) * HIDDEN + n;
    PatternOf(e, n);
    PatternOf(e, n + 1);
    LdexpOrder(n as real, (n + 1) as real, e - 150);
  }

  lemma {:induction false} MagnitudeMonotone(p: int, q: int)
    requires 0 <= p < q <= INF_BITS
    ensures Magnitude(p) < Magnitude(q)
    decreases q - p
  {
    MagnitudeStep(p);
    if p + 1 < q {
      MagnitudeMonotone(p + 1, q);
    }
  }

  lemma MagnitudeMonotoneAll()
    ensures forall p, q :: 0 <= p < q <= INF_BITS ==> Magnitude(p) < Magnitude(q)
  {
    forall p, q | 0 <= p < q <= INF_BITS
      ensures Magnitude(p) < Magnitude(q)
    {
      MagnitudeMonotone(p, q);
    }
  }

  lemma MagnitudeOfZero()
    ensures Magnitude(0) == 0.0
  {
    hide Ldexp;
    LdexpOrder(0.0, 0.0, -149);
  }

  lemma MagnitudeZero(w: Word)
    requires Unsigned(w) <= INF_BITS
    ensures Magnitude(Unsigned(w)) >= 0.0
    ensures Magnitude(Unsigned(w)) == 0.0 <==> IsZero(w)
  {
    hide Magnitude;
    MagnitudeOfZero();
    if Unsigned(w) > 0 {
      MagnitudeMonotone(0, Unsigned(w));
    }
  }

  //// A local test for correct rounding

  /** `m` lies between the midpoints around `p`, a midpoint itself only when `p` is even. */
  predicate Between(m: real, p: int) {
    && 0 <= p <= INF_BITS
    && (p == 0 ||
        Magnitude(p - 1) + Magnitude(p) < 2.0 * m || (Magnitude(p - 1) + Magnitude(p) == 2.0 * m && p % 2 == 0))
    && (p == INF_BITS ||
        2.0 * m < Magnitude(p) + Magnitude(p + 1) || (2.0 * m == Magnitude(p) + Magnitude(p + 1) && p % 2 == 0))
  }

  /** The overflow bound is the midpoint below the pattern of infinity. */
  lemma Threshold()
    ensures Magnitude(INF_BITS - 1) + Magnitude(INF_BITS) == 2.0 * OverflowBound()
  {
    hide Magnitude, Ldexp;
    PatternOf(254, 0xFF_FFFF);
    PatternOf(254, 0x100_0000);
    LdexpStep(33554431.0, 103);
    LdexpSum(16777215.0, 16777216.0, 104);
  }

  /** The local test is enough: whatever passes it is what section 4.3.1 asks for. */
  lemma BetweenRounds(m: real, p: int)
    requires Between(m, p)
    ensures RoundsTo(m, p)
  {
    hide Magnitude, OverflowBound;
    Threshold();
    MagnitudeMonotoneAll();
    if p < INF_BITS {
      assert p + 1 < INF_BITS ==> Magnitude(p) < Magnitude(INF_BITS - 1);
      forall y | 0 <= y < INF_BITS && y != p
        ensures Abs(Magnitude(p) - m) < Abs(Magnitude(y) - m)
             || (Abs(Magnitude(p) - m) == Abs(Magnitude(y) - m) && p % 2 == 0)
      {
        if y < p {
          assert y < p - 1 ==> Magnitude(y) < Magnitude(p - 1);
        } else {
          assert y > p + 1 ==> Magnitude(p + 1) < Magnitude(y);
        }
      }
    }
  }

  /** A representable magnitude rounds to itself. */
  lemma ExactRounds(p: int)
    requires 0 <= p < INF_BITS
    ensures RoundsTo(Magnitude(p), p)
  {
    hide Magnitude, RoundsTo;
    MagnitudeStep(p);
    if p > 0 {
      MagnitudeStep(p - 1);
    }
    BetweenRounds(Magnitude(p), p);
  }

  /** Section 4.3.1 leaves no choice: a magnitude has one correctly rounded pattern. */
  lemma RoundsToUnique(m: real, p: int, q: int)
    requires RoundsTo(m, p) && RoundsTo(m, q)
    ensures p == q
  {
    hide Magnitude, OverflowBound;
    if p != q {
      var lo, hi := if p < q then p else q, if p < q then q else p;
      MagnitudeMonotone(lo, lo + 1);
      MagnitudeMonotone(lo + 1, hi);
    }
  }
}
