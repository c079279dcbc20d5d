/** NEMU's software floating point, first half: sticky shifts, normalisation and rounding, as the
    loops of nemu/src/cpu/fpu.c:11-91 do them, verified against the statement of correct
    rounding in Ieee754. */
module FpuNormalize {
  import opened Common
  import opened Ieee754

  //// Sticky bits

  /** The integer `s` stands for the exact `x` with everything below its last bit collapsed
      into that bit: either nothing was lost, or the last bit is 1 and `x` is less than one
      away.  Every comparison of `x` with an even number then agrees with that of `s`. */
  predicate Jams(s: int, x: real) {
    s as real == x || (s % 2 == 1 && (s - 1) as real < x < (s + 1) as real)
  }

  /** The weaker fact rounding needs: `x` and `s` lie on the same side of each multiple of 4. */
  predicate Agrees(s: int, x: real) {
    s as real == x || (s % 4 != 0 && (s / 4 * 4) as real < x < (s / 4 * 4 + 4) as real)
  }

  /** `s | bit` for a single low bit. */
  function OrBit(s: nat, bit: int): nat {
    if bit == 1 && s % 2 == 0 then s + 1 else s
  }

  /** A right shift that ors the lost bit back in still stands for the exact value. */
  lemma JamsAfterShift(s: nat, x: real)
    requires Jams(s, x)
    ensures Jams(OrBit(s / 2, s % 2), x / 2.0)
  {
  }

  //// Rounding

  /** Dropping the guard, round and sticky bits, ties to even. */
  function RoundGrs(s: nat): nat {
    if s % 8 > 4 || (s % 8 == 4 && s / 8 % 2 == 1) then s / 8 + 1 else s / 8
  }

  lemma Ldexp8(x: real, e: int)
    ensures Ldexp(8.0 * x, e) == Ldexp(x, e + 3)
  {
    hide Ldexp;
    LdexpShift(4.0 * x, e);
    LdexpShift(2.0 * x, e + 1);
    LdexpShift(x, e + 2);
  }

  lemma FloorFour(s: nat)
    ensures s % 4 == s % 8 % 4 && s / 4 * 4 == 8 * (s / 8) + (if s % 8 >= 4 then 4 else 0)
  {
  }

  lemma RealParts(q: int, k: int, r: int)
    requires q == 8 * k + r
    ensures q as real == 8.0 * k as real + r as real
  {
  }

  lemma GrsParts(s: nat, x: real)
    requires Agrees(s, x)
    ensures var r := s % 8; var y := x - 8.0 * (s / 8) as real;
      y == r as real || (r % 4 != 0 && (if r > 4 then 4.0 < y < 8.0 else 0.0 < y < 4.0))
  {
    FloorFour(s);
    var k, r, q := s / 8, s % 8, s / 4 * 4;
    RealParts(s, k, r);
    RealParts(q, k, q - 8 * k);
    RealParts(q + 4, k, q + 4 - 8 * k);
  }

  /** Rounding moves by at most half a unit, and by exactly half only to an even result. */
  lemma RoundGrsHalf(s: nat, x: real)
    requires Agrees(s, x)
    ensures var d := x - 8.0 * RoundGrs(s) as real;
      -4.0 <= d <= 4.0 && (d == 4.0 || d == -4.0 ==> RoundGrs(s) % 2 == 0)
  {
    hide Agrees;
    GrsParts(s, x);
    var k, r := s / 8, s % 8;
    assert (k + 1) as real == k as real + 1.0;
    assert r <= 4 ==> r as real <= 4.0;
    assert r >= 4 ==> 4.0 <= r as real <= 7.0;
  }

  /** The midpoint above the pattern of `n` units, in units of 2^(e-153). */
  lemma MidpointAbove(n: nat, e: int)
    requires 1 <= e <= 254 && n < 0x100_0000 && (e == 1 || n >= HIDDEN)
    ensures var p := (e - 1) * HIDDEN + n;
      0 <= p < INF_BITS && Magnitude(p) + Magnitude(p + 1) == Ldexp(16.0 * n as real + 8.0, e - 153)
  {
    hide Ldexp, Magnitude;
    var y := n as real;
    PatternOf(e, n);
    PatternOf(e, n + 1);
    assert (n + 1) as real == y + 1.0;
    Ldexp8(y, e - 153);
    Ldexp8(y + 1.0, e - 153);
    LdexpSum(8.0 * y, 8.0 * (y + 1.0), e - 153);
    assert 8.0 * y + 8.0 * (y + 1.0) == 16.0 * y + 8.0;
  }

  /** Comparing 2m with a midpoint is comparing the scaled significands. */
  lemma CompareDouble(x: real, z: real, e: int)
    ensures 2.0 * Ldexp(x, e) < Ldexp(z, e) <==> 2.0 * x < z
    ensures 2.0 * Ldexp(x, e) == Ldexp(z, e) <==> 2.0 * x == z
  {
    hide Ldexp;
    LdexpSum(x, x, e);
    LdexpOrder(2.0 * x, z, e);
    LdexpOrder(z, 2.0 * x, e);
  }

  /** With `n` units of 2^(e-150) as the result, the exact value is not beyond the upper midpoint. */
  lemma BelowUpperMidpoint(x: real, n: nat, e: int)
    requires 1 <= e <= 254 && n <= 0x100_0000 && (e == 1 || n >= HIDDEN) && x < 134217728.0
    requires x <= 8.0 * n as real + 4.0
    ensures var p := (e - 1) * HIDDEN + n; var m := Ldexp(x, e - 153);
      && 0 <= p <= INF_BITS
      && (p == INF_BITS || 2.0 * m <= Magnitude(p) + Magnitude(p + 1))
      && (p < INF_BITS && 2.0 * m == Magnitude(p) + Magnitude(p + 1) ==> x == 8.0 * n as real + 4.0)
  {
    hide Ldexp, Magnitude;
    var p := (e - 1) * HIDDEN + n;
    if n < 0x100_0000 {
      MidpointAbove(n, e);
      CompareDouble(x, 16.0 * n as real + 8.0, e - 153);
    } else if p < INF_BITS {
      PatternOf(e, n);
      Ldexp8(n as real, e - 153);
      LdexpOrder(x, 134217728.0, e - 153);
      MagnitudeStep(p);
    }
  }

  /** Nor below the lower one. */
  lemma AboveLowerMidpoint(x: real, n: nat, e: int)
    requires 1 <= e <= 254 && n <= 0x100_0000 && (e == 1 || (n >= HIDDEN && x >= 67108864.0))
    requires 8.0 * n as real - 4.0 <= x
    ensures var p := (e - 1) * HIDDEN + n; var m := Ldexp(x, e - 153);
      && 0 <= p <= INF_BITS
      && (p == 0 || Magnitude(p - 1) + Magnitude(p) <= 2.0 * m)
      && (p > 0 && Magnitude(p - 1) + Magnitude(p) == 2.0 * m ==> x == 8.0 * n as real - 4.0)
  {
    hide Ldexp, Magnitude;
    var p := (e - 1) * HIDDEN + n;
    if p > 0 {
      if e == 1 || n > HIDDEN {
        MidpointAbove(n - 1, e);
        assert 16.0 * (n - 1) as real + 8.0 == 16.0 * n as real - 8.0;
        CompareDouble(x, 16.0 * n as real - 8.0, e - 153);
      } else {
        PatternOf(e, n);
        Ldexp8(n as real, e - 153);
        LdexpOrder(x, 67108864.0, e - 153);
        MagnitudeStep(p - 1);
      }
    }
  }

  /** Rounding a normalised significand (or a subnormal one, e == 1) is correct rounding. */
  lemma RoundGrsIsNearest(s: nat, x: real, e: int)
    requires 1 <= e <= 254 && s < 0x800_0000 && (e == 1 || s >= 0x400_0000)
    requires Agrees(s, x)
    ensures RoundGrs(s) <= 0x100_0000 && (e == 1 || RoundGrs(s) >= HIDDEN)
    ensures RoundsTo(Ldexp(x, e - 153), (e - 1) * HIDDEN + RoundGrs(s))
  {
    hide Ldexp, Magnitude, RoundsTo;
    var n := RoundGrs(s);
    assert n <= 0x100_0000 && (e == 1 || n >= HIDDEN);
    RoundGrsHalf(s, x);
    hide RoundGrs;
    BelowUpperMidpoint(x, n, e);
    AboveLowerMidpoint(x, n, e);
    assert ((e - 1) * HIDDEN + n) % 2 == n % 2;
    assert Between(Ldexp(x, e - 153), (e - 1) * HIDDEN + n);
    BetweenRounds(Ldexp(x, e - 153), (e - 1) * HIDDEN + n);
  }

  //// internal_normalize

  /** The exponent the entry (exp, sig) is read with: two subnormal operands, and only they,
      arrive with exponent 0 and a significand below 2^27, meaning exponent 1. */
  function EntryScale(exp: int, sig: nat): int {
    if exp == 0 && sig < 0x800_0000 then 1 else exp
  }

  /** Exact magnitudes that round up to the smallest normal number from below. */
  ghost predicate RoundsUpToNormal(m: real) {
    Ldexp(16777215.0, -150) <= m < Ldexp(16777216.0, -150)
  }

  /** Past the largest exponent everything is infinite. */
  lemma OverflowRounds(x: real, e: int)
    requires e >= 255 && x >= 67108864.0
    ensures RoundsTo(Ldexp(x, e - 153), INF_BITS)
    ensures !RoundsUpToNormal(Ldexp(x, e - 153))
  {
    hide Ldexp, Magnitude;
    LdexpGrows(x, 102, e - 255);
    PatternOf(254, 0x100_0000);
    PatternOf(254, 0xFF_FFFF);
    Threshold();
    MagnitudeStep(INF_BITS - 1);
    Ldexp8(8388608.0, 102);
    LdexpShift(8388608.0, 104);
    LdexpOrder(x, 67108864.0, 102);
    LdexpGrows(16777216.0, -150, 254);
  }

  lemma {:induction false} LdexpGrows(x: real, e: int, k: nat)
    requires x >= 0.0
    ensures Ldexp(x, e + k) >= Ldexp(x, e) >= 0.0
  {
    hide Ldexp;
    LdexpOrder(x, 0.0, e);
    LdexpOrder(0.0, 0.0, e);
    if k > 0 {
      LdexpGrows(x, e, k - 1);
      LdexpStep(x, e + k - 1);
    }
  }

  /** Below half the smallest subnormal everything is zero. */
  lemma UnderflowRounds(x: real, e: int)
    requires e < 0 && 0.0 <= x < 5.0
    ensures RoundsTo(Ldexp(x, e - 153), 0)
    ensures !RoundsUpToNormal(Ldexp(x, e - 153))
  {
    hide Ldexp, Magnitude, RoundsTo;
    LdexpGrows(x, e - 153, -1 - e);
    LdexpOrder(x, 8.0, -154);
    Ldexp8(1.0, -154);
    LdexpOrder(1.0, 16777215.0, -151);
    LdexpGrows(16777215.0, -151, 1);
    assert Ldexp(x, e - 153) < Ldexp(1.0, -151);
    PatternOf(1, 0);
    PatternOf(1, 1);
    LdexpStep(1.0, -151);
    LdexpStep(1.0, -150);
    LdexpOrder(0.0, 0.0, -149);
    LdexpOrder(0.0, 1.0, -151);
    assert Between(Ldexp(x, e - 153), 0);
    BetweenRounds(Ldexp(x, e - 153), 0);
  }

  /** The exact value an entry (exp, sig) with sticky bit stands for, and what is owed for it. */
  ghost predicate Delivers(sign: int, m: real, r: Word) {
    && Sign(r) == sign
    && (RoundsUpToNormal(m) ==> IsZero(r))
    && (!RoundsUpToNormal(m) ==> RoundsTo(m, Unsigned(r)))
  }

  /** Lines 71-90: round, drop the GRS bits, absorb a carry, assemble the pattern.  Exponent 0
      is a subnormal; a carry out of it does not reach the exponent field. */
  method RoundAndPack(sign: int, exp0: int, sig0: nat, ghost x: real) returns (r: Word)
    requires 0 <= sign <= 1 && 0 <= exp0
    requires Agrees(sig0, x)
    requires if exp0 == 0 then sig0 < 0x400_0000 else 0x400_0000 <= sig0 < 0x800_0000
    ensures exp0 <= 254 ==> Delivers(sign, Ldexp(x, (if exp0 == 0 then 1 else exp0) - 153), r) && !IsNaN(r)
  {
    hide Ldexp, Magnitude, RoundsTo, RoundsUpToNormal, Agrees;
    var exp, sig := exp0, sig0;
    var grs := sig % 8;
    sig := sig / 8;
    if grs > 4 || (grs == 4 && sig % 2 == 1) {
      sig := sig + 1;
    }
    ghost var n := sig;
    ghost var e := if exp0 == 0 then 1 else exp0;
    assert n == RoundGrs(sig0);
    if sig / 0x80_0000 > 1 {
      sig := sig / 2;
      exp := exp + 1;
    }
    r := Pack(sign, exp % 256, sig);

    if exp0 <= 254 {
      RoundGrsIsNearest(sig0, x, e);
      RoundsUpToNormalAt(sig0, x, e);
      FieldsOfPack(sign, exp % 256, sig);
      FieldsOf(r);
    }
  }

  /** The lost carry happens exactly when a subnormal significand rounds to 2^23. */
  lemma RoundsUpToNormalAt(s: nat, x: real, e: int)
    requires 1 <= e && s < 0x800_0000 && (e == 1 || s >= 0x400_0000)
    requires Agrees(s, x)
    ensures RoundsUpToNormal(Ldexp(x, e - 153)) <==> e == 1 && s < 0x400_0000 && RoundGrs(s) == HIDDEN
  {
    hide Ldexp;
    LdexpShift(16777215.0 * 2.0, -152);
    LdexpShift(16777215.0, -151);
    LdexpShift(16777216.0 * 2.0, -152);
    LdexpShift(16777216.0, -151);
    if e == 1 {
      LdexpOrder(x, 67108860.0, -152);
      LdexpOrder(x, 67108864.0, -152);
    } else {
      LdexpGrows(x, -152, e - 1);
      LdexpOrder(x, 67108864.0, -152);
    }
  }

  lemma InfinityDelivers(sign: int, x: real, e: int)
    requires 0 <= sign <= 1 && e >= 255 && x >= 67108864.0
    ensures Delivers(sign, Ldexp(x, e - 153), Pack(sign, 255, 0))
  {
    hide Ldexp, Magnitude, RoundsTo, RoundsUpToNormal;
    OverflowRounds(x, e);
    FieldsOfPack(sign, 255, 0);
  }

  lemma ZeroDelivers(sign: int, x: real, e: int)
    requires 0 <= sign <= 1 && e < 0 && 0.0 <= x < 5.0
    ensures Delivers(sign, Ldexp(x, e - 153), Pack(sign, 0, 0))
  {
    hide Ldexp, Magnitude, RoundsTo, RoundsUpToNormal;
    UnderflowRounds(x, e);
    FieldsOfPack(sign, 0, 0);
  }

  /** Lines 19-30: shift right until the significand has 27 bits and the exponent is not
      negative, or nothing is left, or the exponent overflows. */
  method NormalizeRight(exp0: int, sig0: nat, ghost x0: real) returns (exp: int, sig: nat, ghost x: real)
    requires Jams(sig0, x0)
    ensures Jams(sig, x) && Ldexp(x, exp - 153) == Ldexp(x0, exp0 - 153)
    ensures (sig < 0x800_0000 || exp >= 255) && (sig <= 4 || exp >= 0)
    ensures exp0 <= exp && (exp == exp0 ==> sig == sig0)
    ensures exp > exp0 ==> exp <= 255 && (exp > 0 ==> sig >= 0x400_0000)
  {
    hide Ldexp;
    exp, sig, x := exp0, sig0, x0;
    var sticky := 0;
    while (sig / 0x400_0000 > 1 && exp < 0xff) || (sig > 4 && exp < 0)
      invariant sticky == 0 || (sticky == 1 && sig % 2 == 1)
      invariant Jams(sig, x) && Ldexp(x, exp - 153) == Ldexp(x0, exp0 - 153)
      invariant exp0 <= exp && (exp == exp0 ==> sig == sig0)
      invariant exp > exp0 ==> exp <= 255 && (exp > 0 ==> sig >= 0x400_0000)
      decreases sig
    {
      JamsAfterShift(sig, x);
      LdexpShift(x / 2.0, exp - 153);
      sticky := if sig % 2 == 1 then 1 else sticky;
      sig := sig / 2;
      sig := OrBit(sig, sticky);
      exp := exp + 1;
      x := x / 2.0;
    }
  }

  /** Lines 54-58: shift left until the significand has 27 bits or the exponent reaches 0.  An
      inexact significand is never shifted more than once, so its sticky bit still decides. */
  method NormalizeLeft(exp0: int, sig0: nat, ghost x0: real) returns (exp: int, sig: nat, ghost x: real)
    requires exp0 > 0 && sig0 < 0x400_0000
    requires sig0 as real == x0 || (Jams(sig0, x0) && sig0 >= 0x200_0000 && exp0 >= 2)
    ensures Agrees(sig, x) && Ldexp(x, exp - 153) == Ldexp(x0, exp0 - 153)
    ensures 0 <= exp < exp0 && sig < 0x800_0000 && (exp > 0 ==> sig >= 0x400_0000)
    ensures exp == 0 ==> sig % 2 == 0 && sig as real == x
  {
    hide Ldexp;
    exp, sig, x := exp0, sig0, x0;
    while sig / 0x400_0000 == 0 && exp > 0
      invariant 0 <= exp <= exp0 && sig < 0x800_0000
      invariant Ldexp(x, exp - 153) == Ldexp(x0, exp0 - 153)
      invariant exp == exp0 ==> sig == sig0 && x == x0
      invariant exp < exp0 ==> sig % 2 == 0
      invariant exp == exp0 || sig as real == x || (Agrees(sig, x) && sig >= 0x400_0000 && exp > 0)
    {
      LdexpShift(x, exp - 154);
      sig := sig * 2;
      exp := exp - 1;
      x := 2.0 * x;
    }
  }

  /** The entries the result is promised for.  The sticky bit must still decide after the shifts to
      come, and an exponent past the largest needs a significand to shift right, or a value small
      enough to be shifted left out of there. */
  ghost predicate Covered(exp: int, sig: nat, exact: real) {
    && Jams(sig, exact)
    && (sig as real != exact ==> sig >= 0x400_0000 || (sig >= 0x200_0000 && exp >= 2) || exp < 0)
    && (exp < 255 || sig >= 0x800_0000 || Ldexp(exact, exp - 153) < Ldexp(67108864.0, 102))
  }

  /** 27 bits at exponent 255 or above are 2^128 or more. */
  lemma TooLarge(sig: nat, x: real, e: int)
    requires Agrees(sig, x) && sig >= 0x400_0000 && e >= 255
    ensures Ldexp(x, e - 153) >= Ldexp(67108864.0, 102)
  {
    hide Ldexp;
    LdexpOrder(67108864.0, x, e - 153);
    LdexpOrder(x, 67108864.0, e - 153);
    LdexpGrows(67108864.0, 102, e - 255);
  }

  lemma ExactAgrees(sig: nat)
    ensures Jams(sig, sig as real) && Agrees(sig, sig as real)
  {
  }

  /** The whole function.  `exact` is the value the significand stands for, in the units of its
      last bit: equal to it, or less than one away when the sticky bit is set. */
  method InternalNormalize(sign: int, exp0: int, sig0: nat, ghost exact: real) returns (r: Word)
    requires 0 <= sign <= 1 && sig0 < 0x1_0000_0000_0000_0000
    ensures Covered(exp0, sig0, exact) ==>
      Delivers(sign, Ldexp(exact, EntryScale(exp0, sig0) - 153), r) && !IsNaN(r)
  {
    hide Ldexp, Magnitude, RoundsTo, RoundsUpToNormal, Delivers;
    var exp, sig := exp0, sig0;
    ghost var covered := Covered(exp0, sig0, exact);
    ghost var x := if covered then exact else sig0 as real;
    ExactAgrees(sig0);
    if sig / 0x400_0000 > 1 || exp < 0 {
      exp, sig, x := NormalizeRight(exp, sig, x);
      if exp >= 0xff {
        InfinityDelivers(sign, x, exp);
        return if sign == 0 then 0x7f80_0000 else 0xff80_0000;
      }
      if exp == 0 {
        // exponent 0 means 2^-126: shift right once more
        JamsAfterShift(sig, x);
        LdexpShift(x / 2.0, -153);
        sig := OrBit(sig / 2, sig % 2);
        x := x / 2.0;
      }
      if exp < 0 {
        ZeroDelivers(sign, x, exp);
        return if sign == 1 then 0x8000_0000 else 0;
      }
    } else if sig / 0x400_0000 == 0 && exp > 0 {
      exp, sig, x := NormalizeLeft(exp, sig, x);
      if exp >= 255 {
        TooLarge(sig, x, exp);
      }
      if exp == 0 {
        LdexpShift(x / 2.0, -153);
        sig := OrBit(sig / 2, sig % 2);
        x := x / 2.0;
      }
    } else {
      if exp == 0 && sig / 0x400_0000 == 1 {
        // two denormals result in a normal
        exp := exp + 1;
      }
      if exp >= 255 {
        TooLarge(sig, x, exp);
      }
    }
    r := RoundAndPack(sign, exp, sig, x);
  }
}
