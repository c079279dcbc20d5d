/** NEMU's software floating point, second half: addition, subtraction and multiplication on 32-bit
    patterns (nemu/src/cpu/fpu.c:93-247). */
module Fpu {
  import opened Common
  import opened Ieee754
  import opened FpuNormalize

  //// The corner-case tables

  const P_ZERO: Word := 0x0
  const N_ZERO: Word := 0x8000_0000
  const P_INF: Word := 0x7f80_0000
  const N_INF: Word := 0xff80_0000
  const P_NAN: Word := 0x7fc0_0000
  const N_NAN: Word := 0xffc0_0000

  datatype CornerCase = CornerCase(a: Word, b: Word, res: Word)

  const CORNER_ADD: seq<CornerCase> := [
    CornerCase(P_ZERO, P_ZERO, P_ZERO),
    CornerCase(N_ZERO, P_ZERO, P_ZERO),
    CornerCase(P_ZERO, N_ZERO, P_ZERO),
    CornerCase(N_ZERO, N_ZERO, N_ZERO),
    CornerCase(P_INF, N_INF, N_NAN),
    CornerCase(N_INF, P_INF, N_NAN),
    CornerCase(P_INF, P_NAN, P_NAN),
    CornerCase(P_INF, N_NAN, N_NAN),
    CornerCase(N_INF, P_NAN, P_NAN),
    CornerCase(N_INF, N_NAN, N_NAN),
    CornerCase(N_NAN, P_NAN, P_NAN)
  ]

  /** Row `i` is the first that lists the operands. */
  predicate Lists(row: CornerCase, a: Word, b: Word) { row.a == a && row.b == b }

  method FindCorner(table: seq<CornerCase>, a: Word, b: Word) returns (found: bool, res: Word)
    ensures found ==> exists i :: 0 <= i < |table| && Lists(table[i], a, b) && res == table[i].res
    ensures !found ==> forall i :: 0 <= i < |table| ==> !Lists(table[i], a, b)
  {
    for i := 0 to |table|
      invariant forall k :: 0 <= k < i ==> !Lists(table[k], a, b)
    {
      if a == table[i].a && b == table[i].b {
        return true, table[i].res;
      }
    }
    return false, 0;
  }

  /** The two NaN patterns the FPU recognises as such. */
  predicate IsQuietNaN(w: Word) { w == P_NAN || w == N_NAN }

  lemma ZeroValue(w: Word)
    requires IsZero(w)
    ensures IsFinite(w) && Value(w) == 0.0
  {
    hide Magnitude;
    MagnitudeZero(w);
  }

  lemma NonzeroValue(w: Word)
    requires IsFinite(w) && !IsZero(w)
    ensures if Sign(w) == 1 then Value(w) < 0.0 else Value(w) > 0.0
  {
    hide Magnitude;
    FieldsOf(w);
    MagnitudeZero(w);
  }

  lemma CornerAddIsSum(i: nat)
    requires i < |CORNER_ADD|
    ensures IsSum(CORNER_ADD[i].a, CORNER_ADD[i].b, CORNER_ADD[i].res)
  {
    hide Value, Magnitude, Rounded;
    ZeroValue(P_ZERO);
    ZeroValue(N_ZERO);
  }

  /** Pairs the table must catch before the general code runs. */
  lemma CornerAddCovers(a: Word, b: Word)
    requires forall i :: 0 <= i < |CORNER_ADD| ==> !Lists(CORNER_ADD[i], a, b)
    ensures !(IsZero(a) && IsZero(b))
    ensures !(IsInf(a) && b == Negate(a))
    ensures !(IsInf(a) && IsQuietNaN(b))
  {
    forall i | 0 <= i < 11
      ensures !Lists(CORNER_ADD[i], a, b)
    {
    }
    assert !Lists(CORNER_ADD[0], a, b) && !Lists(CORNER_ADD[1], a, b) && !Lists(CORNER_ADD[2], a, b);
    assert !Lists(CORNER_ADD[3], a, b) && !Lists(CORNER_ADD[4], a, b) && !Lists(CORNER_ADD[5], a, b);
    assert !Lists(CORNER_ADD[6], a, b) && !Lists(CORNER_ADD[7], a, b) && !Lists(CORNER_ADD[8], a, b);
    assert !Lists(CORNER_ADD[9], a, b);
  }

  //// internal_float_add

  /** After `n` places of the alignment shift: what the significand can be, and that nothing is lost
      before the fourth. */
  predicate Shifted(n: nat, sig: nat, x: real) {
    && (n <= 3 ==> sig as real == x)
    && if n == 0 then sig % 8 == 0 && sig < 0x800_0000
       else if n == 1 then sig % 4 == 0 && sig <= 0x400_0000
       else if n == 2 then sig % 2 == 0 && sig <= 0x200_0000
       else if n == 3 then sig <= 0x100_0000
       else sig <= 0x80_0000
  }

  lemma ShiftedStep(n: nat, sig: nat, x: real)
    requires Shifted(n, sig, x)
    ensures Shifted(n + 1, OrBit(sig / 2, sig % 2), x / 2.0)
    ensures OrBit(sig / 2, sig % 2) <= sig && (sig % 2 == 1 ==> OrBit(sig / 2, sig % 2) % 2 == 1)
  {
  }

  lemma ShiftedLoss(n: nat, sig: nat, x: real)
    requires Shifted(n, sig, x) && sig as real != x
    ensures n >= 4 && sig <= 0x80_0000
  {
  }

  /** Lines 153-159: the alignment shift.  Up to three places nothing is lost; from four on the
      significand is small, so the sum still has 26 bits. */
  method Align(sig0: nat, shift0: nat, ghost e: int) returns (sig: nat, ghost x: real)
    requires sig0 % 8 == 0 && sig0 < 0x800_0000
    ensures Jams(sig, x) && x >= 0.0 && Ldexp(x, e) == Ldexp(sig0 as real, e - shift0)
    ensures sig <= sig0
    ensures sig as real != x ==> shift0 >= 4 && sig <= 0x80_0000
  {
    hide Ldexp, Jams, Shifted, OrBit;
    sig, x := sig0, sig0 as real;
    var sticky, shift := 0, shift0;
    AlignStart(sig);
    while shift > 0
      invariant 0 <= shift <= shift0
      invariant sticky == 0 || (sticky == 1 && sig % 2 == 1)
      invariant Jams(sig, x) && x >= 0.0 && Shifted(shift0 - shift, sig, x) && sig <= sig0
      invariant Ldexp(x, e - shift) == Ldexp(sig0 as real, e - shift0)
    {
      JamsAfterShift(sig, x);
      ShiftedStep(shift0 - shift, sig, x);
      LdexpShift(x / 2.0, e - shift);
      sticky := if sig % 2 == 1 then 1 else sticky;
      assert sticky == sig % 2;
      sig := sig / 2;
      sig := OrBit(sig, sticky);
      shift := shift - 1;
      x := x / 2.0;
    }
    if sig as real != x {
      ShiftedLoss(shift0, sig, x);
    }
  }

  lemma AlignStart(sig: nat)
    requires sig % 8 == 0 && sig < 0x800_0000
    ensures Jams(sig, sig as real) && Shifted(0, sig, sig as real)
  {
  }

  /** Scaling commutes with negation. */
  lemma LdexpNegate(x: real, e: int)
    ensures Ldexp(-x, e) == -Ldexp(x, e)
  {
    hide Ldexp;
    LdexpSum(x, -x, e);
    LdexpOrder(0.0, 0.0, e);
  }

  function SignedInt(sign: int, s: int): int { if sign == 1 then -s else s }
  function SignedReal(sign: int, x: real): real { if sign == 1 then -x else x }

  /** The value of a finite number from its significand with three GRS bits. */
  lemma ValueFromSignificand(w: Word)
    requires IsFinite(w)
    ensures Value(w) == Ldexp(SignedReal(Sign(w), (8 * Significand(w)) as real), Scale(w) - 153)
  {
    hide Ldexp;
    FieldsOf(w);
    Ldexp8(Significand(w) as real, Scale(w) - 153);
    LdexpNegate(8.0 * Significand(w) as real, Scale(w) - 153);
  }

  /** Every finite value is a whole number of units 2^-149. */
  lemma {:induction false} WholeUnits(n: int, j: nat) returns (k: int)
    ensures Ldexp(n as real, j - 149) == Ldexp(k as real, -149)
    decreases j
  {
    hide Ldexp;
    if j == 0 {
      k := n;
    } else {
      LdexpShift(n as real, j - 150);
      k := WholeUnits(2 * n, j - 1);
    }
  }

  lemma ValueIsWhole(w: Word) returns (k: int)
    requires IsFinite(w)
    ensures Value(w) == Ldexp(k as real, -149)
  {
    hide Ldexp;
    FieldsOf(w);
    k := WholeUnits(Significand(w), Scale(w) - 1);
    if Sign(w) == 1 {
      LdexpNegate(k as real, -149);
      k := -k;
    }
  }

  /** So a sum never falls into the gap where a subnormal would have to round up to 2^-126. */
  lemma SumsAreExactBelowNormal(a: Word, b: Word)
    requires IsFinite(a) && IsFinite(b)
    ensures !RoundsUpToNormal(Abs(Value(a) + Value(b)))
  {
    hide Ldexp, Value;
    var k := ValueIsWhole(a);
    var l := ValueIsWhole(b);
    LdexpSum(k as real, l as real, -149);
    LdexpNegate((k + l) as real, -149);
    var u := if Ldexp((k + l) as real, -149) < 0.0 then -(k + l) else k + l;
    assert Abs(Value(a) + Value(b)) == Ldexp(u as real, -149);
    LdexpShift(u as real, -150);
    LdexpOrder(2.0 * u as real, 16777215.0, -150);
    LdexpOrder(2.0 * u as real, 16777216.0, -150);
  }

  /** Unsigned 32-bit arithmetic. */
  function Wrap32(n: int): nat { n % 0x1_0000_0000 }

  function AbsInt(n: int): nat { if n < 0 then -n else n }

  /** Two's complement recovers the sign and the magnitude of a small sum. */
  lemma TwosComplement(s: int, t: int)
    requires -0x800_0000 <= s <= 0x800_0000 && -0x800_0000 <= t <= 0x800_0000
    ensures var w := Wrap32(Wrap32(s) + Wrap32(t));
      && (w / 0x8000_0000 == 1 <==> s + t < 0)
      && AbsInt(s + t) == if s + t < 0 then Wrap32(0 - w) else w
  {
    WrapSmall(s);
    WrapSmall(t);
    WrapSmall(s + t);
    var k := (if s < 0 then 1 else 0) + (if t < 0 then 1 else 0);
    assert Wrap32(s) + Wrap32(t) == s + t + k * 0x1_0000_0000;
    WrapPeriod(s + t, k);
    if s + t < 0 {
      WrapPeriod(-(s + t), -1);
      WrapSmall(-(s + t));
    }
  }

  lemma SignedInput(sign: int, sig: nat)
    requires sig <= 0x800_0000
    ensures (if sign == 1 then Wrap32(0 - sig) else sig) == Wrap32(SignedInt(sign, sig))
    ensures -0x800_0000 <= SignedInt(sign, sig) <= 0x800_0000
  {
  }

  lemma WrapSmall(n: int)
    requires -0x8000_0000 <= n < 0x8000_0000
    ensures Wrap32(n) == if n < 0 then n + 0x1_0000_0000 else n
  {
  }

  lemma WrapPeriod(n: int, k: int)
    ensures Wrap32(n + k * 0x1_0000_0000) == Wrap32(n)
  {
  }

  /** A sticky significand stays faithful when an even number is added to it, ... */
  lemma JamsPlusEven(s: int, x: real, k: int)
    requires Jams(s, x) && k % 2 == 0
    ensures Jams(s + k, x + k as real)
  {
  }

  /** ... when its sign changes, and when its magnitude is taken. */
  lemma JamsNegated(s: int, x: real)
    requires Jams(s, x)
    ensures Jams(-s, -x) && Jams(AbsInt(s), Abs(x))
    ensures s < 0 <==> x < 0.0
    ensures s as real == x ==> AbsInt(s) as real == Abs(x)
  {
  }

  /** Lines 137-141 and 148: the significand, its hidden bit, and room for the GRS bits. */
  method SignificandWithGrs(w: Word) returns (sig: nat)
    requires IsFinite(w)
    ensures sig == 8 * Significand(w) < 0x800_0000
    ensures Exponent(w) == 0 ==> sig < 0x400_0000
    ensures Exponent(w) != 0 ==> sig >= 0x400_0000
  {
    sig := Fraction(w);
    if Exponent(w) != 0 {
      sig := sig + 0x80_0000;
    }
    sig := sig * 8;
  }

  lemma JamsSigned(sign: int, sig: nat, x: real)
    requires Jams(sig, x)
    ensures Jams(SignedInt(sign, sig), SignedReal(sign, x))
    ensures sig as real == x ==> SignedInt(sign, sig) as real == SignedReal(sign, x)
  {
    hide Jams;
    JamsNegated(sig, x);
  }

  lemma SignedBounds(signA: int, signB: int, sigA: nat, sigB: nat)
    ensures sigB - sigA <= AbsInt(SignedInt(signA, sigA) + SignedInt(signB, sigB)) <= sigA + sigB
  {
  }

  lemma SignedOf(sign: int, sig: nat)
    ensures SignedInt(sign, sig) as real == SignedReal(sign, sig as real)
  {
  }

  lemma SignedEven(sign: int, sig: nat)
    requires sig % 8 == 0
    ensures SignedInt(sign, sig) % 2 == 0
  {
    var k: int := sig / 8;
    assert sig == 8 * k;
    EvenOf(SignedInt(sign, sig), if sign == 1 then -4 * k else 4 * k);
  }

  lemma EvenOf(n: int, h: int)
    requires n == 2 * h
    ensures n % 2 == 0
  {
  }

  /** The aligned significands with their signs add up to the exact value, sticky bit and all. */
  lemma SignedSum(signA: int, signB: int, sigA: nat, sigB: nat, x: real) returns (v: real)
    requires sigB % 8 == 0 && Jams(sigA, x)
    ensures v == SignedReal(signA, x) + SignedReal(signB, sigB as real)
    ensures var s := SignedInt(signA, sigA) + SignedInt(signB, sigB);
      && (s < 0 <==> v < 0.0)
      && Jams(AbsInt(s), Abs(v)) && (sigA as real == x ==> AbsInt(s) as real == Abs(v))
      && sigB - sigA <= AbsInt(s) <= sigA + sigB
  {
    hide Jams, SignedInt, SignedReal, AbsInt, Abs;
    var s, t := SignedInt(signA, sigA), SignedInt(signB, sigB);
    JamsSigned(signA, sigA, x);
    SignedBounds(signA, signB, sigA, sigB);
    SignedOf(signB, sigB);
    SignedEven(signB, sigB);
    v := SignedReal(signA, x) + SignedReal(signB, sigB as real);
    JamsPlusEven(s, SignedReal(signA, x), t);
    JamsNegated(s + t, v);
  }

  /** Lines 164-170: the signed addition in 32-bit two's complement, then sign and magnitude. */
  method AddSigned(signA: int, sigA: nat, signB: int, sigB: nat) returns (sign: int, sigRes: nat)
    requires sigA <= 0x800_0000 && sigB <= 0x800_0000
    ensures var s := SignedInt(signA, sigA) + SignedInt(signB, sigB);
      sign == (if s < 0 then 1 else 0) && sigRes == AbsInt(s)
  {
    hide Wrap32, SignedInt, AbsInt;
    SignedInput(signA, sigA);
    SignedInput(signB, sigB);
    var sumA := if signA == 1 then Wrap32(0 - sigA) else sigA;
    var sumB := if signB == 1 then Wrap32(0 - sigB) else sigB;
    sigRes := Wrap32(sumA + sumB);
    TwosComplement(SignedInt(signA, sigA), SignedInt(signB, sigB));
    sign := 0;
    if sigRes / 0x8000_0000 == 1 {
      sign := 1;
      sigRes := Wrap32(0 - sigRes);
    }
  }

  /** Lines 136-173, once the operand with the smaller exponent is `fa`. */
  method AddFinite(fa: Word, fb: Word) returns (r: Word)
    requires IsFinite(fa) && IsFinite(fb) && !IsZero(fa) && !IsZero(fb)
    requires Exponent(fa) <= Exponent(fb)
    ensures IsSum(fa, fb, r)
  {
    hide Ldexp, Value, Delivers, IsSum, Significand, Jams;
    FieldsOf(fa);
    FieldsOf(fb);
    var sigA := SignificandWithGrs(fa);
    var sigB := SignificandWithGrs(fb);
    var shift: nat := (if Exponent(fb) == 0 then Exponent(fb) + 1 else Exponent(fb))
                    - (if Exponent(fa) == 0 then Exponent(fa) + 1 else Exponent(fa));
    ghost var x;
    sigA, x := Align(sigA, shift, Scale(fb) - 153);
    var sign, sigRes := AddSigned(Sign(fa), sigA, Sign(fb), sigB);
    ghost var v := SignedSum(Sign(fa), Sign(fb), sigA, sigB, x);
    r := InternalNormalize(sign, Exponent(fb), sigRes, Abs(v));
    AddedValue(fa, fb, x, v);
    SumDelivered(fa, fb, r, sign);
  }

  /** What the normaliser delivers for a finite sum is the IEEE sum. */
  lemma SumDelivered(a: Word, b: Word, r: Word, sign: int)
    requires IsFinite(a) && IsFinite(b) && !IsZero(a) && !IsZero(b)
    requires sign == (if Value(a) + Value(b) < 0.0 then 1 else 0)
    requires Delivers(sign, Abs(Value(a) + Value(b)), r)
    ensures IsSum(a, b, r)
  {
    hide Ldexp, Value, RoundsTo, RoundsUpToNormal;
    SumsAreExactBelowNormal(a, b);
    FieldsOf(a);
    FieldsOf(b);
    FieldsOf(r);
    if Value(a) + Value(b) == 0.0 {
      ZeroRoundsToZero(Unsigned(r));
      NonzeroValue(a);
      NonzeroValue(b);
    }
  }

  lemma ZeroRoundsToZero(p: int)
    requires RoundsTo(0.0, p)
    ensures p == 0
  {
    hide Magnitude;
    MagnitudeZero(0);
    if p != 0 {
      Threshold();
      MagnitudeMonotone(0, INF_BITS - 1);
      MagnitudeStep(INF_BITS - 1);
      MagnitudeMonotone(0, p);
    }
  }

  /** The aligned operands add up to the exact sum. */
  lemma AddedValue(fa: Word, fb: Word, x: real, v: real)
    requires IsFinite(fa) && IsFinite(fb)
    requires x >= 0.0 && Ldexp(x, Scale(fb) - 153) == Ldexp((8 * Significand(fa)) as real, Scale(fa) - 153)
    requires v == SignedReal(Sign(fa), x) + SignedReal(Sign(fb), (8 * Significand(fb)) as real)
    ensures Value(fa) + Value(fb) == Ldexp(v, Scale(fb) - 153)
    ensures Abs(Value(fa) + Value(fb)) == Ldexp(Abs(v), Scale(fb) - 153)
    ensures v < 0.0 <==> Value(fa) + Value(fb) < 0.0
    ensures v == 0.0 <==> Value(fa) + Value(fb) == 0.0
  {
    hide Ldexp, Value;
    var e := Scale(fb) - 153;
    ValueFromSignificand(fa);
    ValueFromSignificand(fb);
    LdexpNegate(x, e);
    LdexpNegate((8 * Significand(fa)) as real, Scale(fa) - 153);
    LdexpSum(SignedReal(Sign(fa), x), SignedReal(Sign(fb), (8 * Significand(fb)) as real), e);
    LdexpNegate(v, e);
    LdexpOrder(v, 0.0, e);
    LdexpOrder(0.0, 0.0, e);
  }

  lemma SumCommutes(a: Word, b: Word, r: Word)
    requires IsFinite(a) && IsFinite(b)
    ensures IsSum(a, b, r) <==> IsSum(b, a, r)
  {
    hide Value, Rounded;
    FieldsOf(a);
    FieldsOf(b);
  }

  /** Adding a zero to anything else gives that back. */
  lemma ZeroPlus(z: Word, w: Word)
    requires IsZero(z) && !IsZero(w)
    ensures IsSum(z, w, w) && IsSum(w, z, w)
  {
    hide Magnitude, RoundsTo;
    FieldsOf(w);
    ZeroValue(z);
    if IsFinite(w) {
      NonzeroValue(w);
      ExactRounds(Unsigned(w));
    }
  }

  /** a + b.  Right for every pair of operands, NaNs and infinities included, but one family: an
      infinity plus a NaN that is not one of the two quiet patterns comes back as the infinity. */
  method InternalFloatAdd(b: Word, a: Word) returns (r: Word)
    ensures IsSum(a, b, r) <==> !(IsInf(a) && IsNaN(b) && !IsQuietNaN(b))
  {
    hide Value, Rounded;
    FieldsOf(a);
    FieldsOf(b);
    var found, res := FindCorner(CORNER_ADD, a, b);
    if found {
      ghost var i :| 0 <= i < |CORNER_ADD| && Lists(CORNER_ADD[i], a, b) && res == CORNER_ADD[i].res;
      CornerAddIsSum(i);
      CornerAddSkipsPayloads(i);
      return res;
    }
    CornerAddCovers(a, b);
    if a == P_ZERO || a == N_ZERO {
      ZeroPlus(a, b);
      return b;
    }
    if b == P_ZERO || b == N_ZERO {
      ZeroPlus(b, a);
      return a;
    }
    var fa, fb := a, b;
    if Exponent(fa) == 0xff {
      return a;
    }
    if Exponent(fb) == 0xff {
      return b;
    }
    if Exponent(fa) > Exponent(fb) {
      fa := b;
      fb := a;
    }
    r := AddFinite(fa, fb);
    SumCommutes(a, b, r);
  }

  lemma CornerAddSkipsPayloads(i: nat)
    requires i < |CORNER_ADD|
    ensures IsNaN(CORNER_ADD[i].b) ==> IsQuietNaN(CORNER_ADD[i].b)
  {
  }

  //// internal_float_sub

  const CORNER_SUB: seq<CornerCase> := [
    CornerCase(P_ZERO, P_ZERO, P_ZERO),
    CornerCase(N_ZERO, P_ZERO, N_ZERO),
    CornerCase(P_ZERO, N_ZERO, P_ZERO),
    CornerCase(N_ZERO, N_ZERO, P_ZERO),
    CornerCase(P_NAN, P_NAN, P_NAN),
    CornerCase(N_NAN, P_NAN, P_NAN),
    CornerCase(P_NAN, N_NAN, P_NAN),
    CornerCase(N_NAN, N_NAN, N_NAN)
  ]

  lemma CornerSubIsDifference(i: nat)
    requires i < |CORNER_SUB|
    ensures IsDifference(CORNER_SUB[i].a, CORNER_SUB[i].b, CORNER_SUB[i].res)
    ensures !IsInf(CORNER_SUB[i].a)
  {
    hide Value, Magnitude, Rounded;
    ZeroValue(P_ZERO);
    ZeroValue(N_ZERO);
  }

  /** a - b, by flipping the sign of b; the same single family of operands goes wrong. */
  method InternalFloatSub(b: Word, a: Word) returns (r: Word)
    ensures IsDifference(a, b, r) <==> !(IsInf(a) && IsNaN(b) && !IsQuietNaN(b))
  {
    hide Value, Rounded;
    FieldsOf(a);
    FieldsOf(b);
    FieldsOf(Negate(b));
    var found, res := FindCorner(CORNER_SUB, a, b);
    if found {
      ghost var i :| 0 <= i < |CORNER_SUB| && Lists(CORNER_SUB[i], a, b) && res == CORNER_SUB[i].res;
      CornerSubIsDifference(i);
      return res;
    }
    if a == P_NAN || a == N_NAN {
      return a;
    }
    if b == P_NAN || b == N_NAN {
      return b;
    }
    r := InternalFloatAdd(Negate(b), a);
  }

  //// internal_float_mul

  const CORNER_MUL: seq<CornerCase> := [
    CornerCase(P_ZERO, P_INF, N_NAN),
    CornerCase(P_ZERO, N_INF, N_NAN),
    CornerCase(N_ZERO, P_INF, N_NAN),
    CornerCase(N_ZERO, N_INF, N_NAN),
    CornerCase(P_INF, P_ZERO, N_NAN),
    CornerCase(P_INF, N_ZERO, N_NAN),
    CornerCase(N_INF, P_ZERO, N_NAN),
    CornerCase(N_INF, N_ZERO, N_NAN)
  ]

  lemma CornerMulIsProduct(i: nat)
    requires i < |CORNER_MUL|
    ensures IsProduct(CORNER_MUL[i].a, CORNER_MUL[i].b, CORNER_MUL[i].res)
    ensures !IsNaN(CORNER_MUL[i].a) && !IsNaN(CORNER_MUL[i].b)
    ensures IsZero(CORNER_MUL[i].a) || IsZero(CORNER_MUL[i].b)
  {
    hide Magnitude, RoundsTo;
  }

  lemma CornerMulCovers(a: Word, b: Word)
    requires forall i :: 0 <= i < |CORNER_MUL| ==> !Lists(CORNER_MUL[i], a, b)
    ensures !(IsZero(a) && IsInf(b)) && !(IsInf(a) && IsZero(b))
  {
    assert !Lists(CORNER_MUL[0], a, b) && !Lists(CORNER_MUL[1], a, b) && !Lists(CORNER_MUL[2], a, b);
    assert !Lists(CORNER_MUL[3], a, b) && !Lists(CORNER_MUL[4], a, b) && !Lists(CORNER_MUL[5], a, b);
    assert !Lists(CORNER_MUL[6], a, b) && !Lists(CORNER_MUL[7], a, b);
  }

  /** The product reaches the normaliser with exponent 0 and too few bits to be shifted right: there
      exponent 0 is taken for the subnormal exponent 1, and the result is twice the product. */
  predicate EntersAsSubnormal(a: Word, b: Word) {
    Scale(a) + Scale(b) == 147 && Significand(a) * Significand(b) < 0x800_0000
  }

  /** Exactly the operands whose product internal_float_mul gets wrong. */
  ghost predicate MulFails(a: Word, b: Word) {
    if IsNaN(a) || IsNaN(b) then !IsQuietNaN(a) && !IsQuietNaN(b)
    else if IsInf(a) || IsInf(b) || IsZero(a) || IsZero(b) then false
    else EntersAsSubnormal(a, b) || RoundsUpToNormal(Magnitude(Unsigned(a)) * Magnitude(Unsigned(b)))
  }

  /** What is rounded for finite nonzero operands, right or not: the exact product, or twice that. */
  function Rounded(a: Word, b: Word): real
    requires IsFinite(a) && IsFinite(b)
  {
    var m := Magnitude(Unsigned(a)) * Magnitude(Unsigned(b));
    if EntersAsSubnormal(a, b) then 2.0 * m else m
  }

  /** It comes back with the product's sign; and as a zero where it rounds up to 2^-126. */
  ghost predicate MulDelivers(a: Word, b: Word, r: Word)
    requires IsFinite(a) && IsFinite(b)
  {
    && Sign(r) == SignXor(a, b)
    && if RoundsUpToNormal(Rounded(a, b)) then IsZero(r) else RoundsTo(Rounded(a, b), Unsigned(r))
  }

  lemma {:induction false} LdexpTimes(x: real, y: real, e: int)
    ensures Ldexp(x, e) * y == Ldexp(x * y, e)
    decreases if e >= 0 then e else -e
  {
    if e > 0 {
      LdexpTimes(x, y, e - 1);
      DoubleTimes(Ldexp(x, e - 1), y);
    } else if e < 0 {
      LdexpTimes(x, y, e + 1);
      DoubleTimes(Ldexp(x, e), y);
    }
  }

  lemma DoubleTimes(x: real, y: real)
    ensures (2.0 * x) * y == 2.0 * (x * y)
  {
  }

  /** Products of scaled numbers: significands multiply, exponents add. */
  lemma {:induction false} LdexpProduct(x: real, e: int, y: real, f: int)
    ensures Ldexp(x, e) * Ldexp(y, f) == Ldexp(x * y, e + f)
    decreases if f >= 0 then f else -f
  {
    hide Ldexp;
    if f == 0 {
      assert Ldexp(y, 0) == y by { LdexpBase(y); }
      LdexpTimes(x, y, e);
    } else if f > 0 {
      LdexpProduct(x, e, y, f - 1);
      LdexpStep(y, f - 1);
      LdexpStep(x * y, e + f - 1);
      DoubleTimes(Ldexp(y, f - 1), Ldexp(x, e));
    } else {
      LdexpProduct(x, e, y, f + 1);
      LdexpStep(y, f);
      LdexpStep(x * y, e + f);
      DoubleTimes(Ldexp(y, f), Ldexp(x, e));
    }
  }

  lemma LdexpBase(x: real)
    ensures Ldexp(x, 0) == x
  {
  }

  lemma IntProduct(m: int, n: int, e: int, f: int)
    ensures Ldexp(m as real, e) * Ldexp(n as real, f) == Ldexp((m * n) as real, e + f)
  {
    hide Ldexp;
    LdexpProduct(m as real, e, n as real, f);
    RealOfProduct(m, n);
  }

  lemma RealOfProduct(m: int, n: int)
    ensures m as real * n as real == (m * n) as real
  {
  }

  lemma EqualFactors(x: real, y: real, u: real, v: real)
    requires x == u && y == v
    ensures x * y == u * v
  {
  }

  /** The exact product in the normaliser's terms. */
  lemma ProductValue(a: Word, b: Word)
    requires Unsigned(a) <= INF_BITS && Unsigned(b) <= INF_BITS
    ensures Magnitude(Unsigned(a)) * Magnitude(Unsigned(b))
         == Ldexp((Significand(a) * Significand(b)) as real, Scale(a) + Scale(b) - 300)
  {
    hide *;
    MagnitudeOf(a);
    MagnitudeOf(b);
    var m, n, e, f := Significand(a), Significand(b), Scale(a) - 150, Scale(b) - 150;
    IntProduct(m, n, e, f);
    EqualFactors(Magnitude(Unsigned(a)), Magnitude(Unsigned(b)), Ldexp(m as real, e), Ldexp(n as real, f));
  }

  lemma MagnitudeOf(w: Word)
    requires Unsigned(w) <= INF_BITS
    ensures 0 <= Unsigned(w) && Magnitude(Unsigned(w)) == Ldexp(Significand(w) as real, Scale(w) - 150)
  {
    hide Ldexp;
    FieldsOf(w);
  }

  //// What goes wrong, and that nothing else does

  lemma SmallDoesNotOverflow(z: real)
    requires 0.0 <= z < 16777216.0
    ensures 0.0 <= Ldexp(z, -149) < OverflowBound()
  {
    LdexpGrows(z, -149, 0);
    LdexpGrows(33554431.0, -149, 252);
    hide Ldexp;
    LdexpOrder(z, 33554431.0, -149);
  }

  /** Some pattern is less than one unit away. */
  lemma PatternNearby(z: real) returns (n: int)
    requires 0.0 <= z < 16777216.0
    ensures 0 <= n < INF_BITS && Abs(Magnitude(n) - Ldexp(z, -149)) < Ldexp(1.0, -149)
  {
    hide Ldexp, Magnitude;
    n := z.Floor;
    var d := z - n as real;
    PatternOf(1, n);
    LdexpSum(n as real, d, -149);
    LdexpOrder(d, 1.0, -149);
    LdexpOrder(d, 0.0, -149);
    LdexpOrder(0.0, 0.0, -149);
  }

  /** A magnitude below 2^24 units of 2^-149 is rounded by less than one unit. */
  lemma WithinOneUnit(z: real, p: int)
    requires 0.0 <= z < 16777216.0
    requires RoundsTo(Ldexp(z, -149), p)
    ensures 0 <= p <= INF_BITS && Abs(Magnitude(p) - Ldexp(z, -149)) < Ldexp(1.0, -149)
  {
    hide Ldexp, Magnitude, OverflowBound;
    SmallDoesNotOverflow(z);
    var n := PatternNearby(z);
  }

  /** A pattern cannot be the rounding of both m and 2m once m has a few units. */
  lemma NotBothRoundings(z: real, p: int, q: int)
    requires 4.0 <= z < 8388608.0
    requires RoundsTo(Ldexp(z, -149), p) && (RoundsTo(Ldexp(2.0 * z, -149), q) || q == 0)
    ensures p != q
  {
    hide Ldexp, Magnitude, RoundsTo;
    WithinOneUnit(z, p);
    MagnitudeZero(0);
    LdexpSum(z, z, -149);
    LdexpOrder(0.0, 1.0, -149);
    LdexpOrder(0.0, 0.0, -149);
    LdexpShift(1.0, -148);
    LdexpShift(2.0, -149);
    LdexpStep(1.0, -149);
    LdexpStep(1.0, -148);
    LdexpOrder(z, 4.0, -149);
    if q != 0 {
      WithinOneUnit(2.0 * z, q);
    }
  }

  /** Just below the smallest normal number, the smallest normal number is the answer. */
  lemma RoundsUpMeansSmallestNormal(m: real)
    requires RoundsUpToNormal(m)
    ensures RoundsTo(m, HIDDEN)
  {
    hide Magnitude, Ldexp, RoundsTo;
    PatternOf(1, HIDDEN - 1);
    PatternOf(1, HIDDEN);
    MagnitudeStep(HIDDEN);
    LdexpSum(8388607.0, 8388608.0, -149);
    LdexpStep(16777215.0, -150);
    LdexpShift(8388608.0, -150);
    assert Between(m, HIDDEN);
    BetweenRounds(m, HIDDEN);
  }

  /** Lines 234-246 for nonzero operands: the result is the product of finite operands except in the
      two families of MulFails, and is never a NaN. */
  method MulFinite(a: Word, b: Word, sign: int) returns (r: Word)
    requires !IsInf(a) && !IsInf(b) && !IsZero(a) && !IsZero(b)
    requires sign == SignXor(a, b)
    ensures !IsNaN(r)
    ensures IsFinite(a) && IsFinite(b) ==> (IsProduct(a, b, r) <==> !MulFails(a, b))
    ensures IsFinite(a) && IsFinite(b) ==> MulDelivers(a, b, r)
  {
    hide Ldexp, Magnitude, RoundsTo, RoundsUpToNormal, IsProduct, MulFails, MulDelivers, Delivers;
    FieldsOf(a);
    FieldsOf(b);
    var sigA: nat := Fraction(a);
    if Exponent(a) != 0 {
      sigA := sigA + 0x80_0000;
    }
    var sigB: nat := Fraction(b);
    if Exponent(b) != 0 {
      sigB := sigB + 0x80_0000;
    }
    var expA := if Exponent(a) == 0 then Exponent(a) + 1 else Exponent(a);
    var expB := if Exponent(b) == 0 then Exponent(b) + 1 else Exponent(b);
    SignificandBounds(a, b);
    var sigRes: nat := sigA * sigB;
    var expRes := expA + expB - 127 - 23 + 3;
    r := InternalNormalize(sign, expRes, sigRes, sigRes as real);
    if IsFinite(a) && IsFinite(b) {
      ProductDelivered(a, b, r, sign);
      ProductOrTwice(a, b, r, sign);
    }
  }

  lemma SignificandBounds(a: Word, b: Word)
    requires !IsZero(a) && !IsZero(b)
    ensures 1 <= Significand(a) * Significand(b) < 0x1_0000_0000_0000
    ensures Scale(a) > 1 || Scale(b) > 1 ==> Significand(a) * Significand(b) >= 0x80_0000
    ensures Scale(a) > 1 && Scale(b) > 1 ==> Significand(a) * Significand(b) >= 0x4000_0000_0000
  {
    var m, n := Significand(a), Significand(b);
    assert 1 <= m < 0x100_0000 && 1 <= n < 0x100_0000;
    assert Scale(a) > 1 ==> m >= 0x80_0000;
    assert Scale(b) > 1 ==> n >= 0x80_0000;
    hide *;
    ProductBounds(m, n);
  }

  lemma ProductBounds(m: int, n: int)
    requires 1 <= m < 0x100_0000 && 1 <= n < 0x100_0000
    ensures 1 <= m * n < 0x1_0000_0000_0000
    ensures m >= 0x80_0000 || n >= 0x80_0000 ==> m * n >= 0x80_0000
    ensures m >= 0x80_0000 && n >= 0x80_0000 ==> m * n >= 0x4000_0000_0000
  {
    MultiplyMonotone(1, m, n);
    MultiplyMonotone(1, n, m);
    MultiplyMonotone(m, 0xFF_FFFF, n);
    if m >= 0x80_0000 {
      MultiplyMonotone(0x80_0000, m, n);
    }
    if n >= 0x80_0000 {
      MultiplyMonotone(0x80_0000, n, m);
    }
  }

  lemma MultiplyMonotone(k: int, m: int, n: int)
    requires k <= m && 0 <= n
    ensures k * n <= m * n && n * k <= n * m
  {
  }

  /** The entry with exponent 0 delivers the rounding of twice the product. */
  lemma SubnormalEntryDoubles(s: int)
    ensures Ldexp(s as real, -153) == Ldexp(s as real / 16.0, -149)
    ensures Ldexp(s as real, -152) == Ldexp(2.0 * (s as real / 16.0), -149)
  {
    hide Ldexp;
    var x := s as real;
    Ldexp8(x / 16.0, -152);
    LdexpShift(x / 2.0, -153);
    Ldexp8(x / 8.0, -152);
  }

  lemma ProductDelivered(a: Word, b: Word, r: Word, sign: int)
    requires IsFinite(a) && IsFinite(b) && !IsZero(a) && !IsZero(b)
    requires sign == SignXor(a, b)
    requires var s := Significand(a) * Significand(b);
      s >= 0 && Delivers(sign, Ldexp(s as real, EntryScale(Scale(a) + Scale(b) - 147, s) - 153), r)
    ensures IsProduct(a, b, r) <==> !MulFails(a, b)
  {
    hide Ldexp, Magnitude, RoundsTo, RoundsUpToNormal;
    FieldsOf(a);
    FieldsOf(b);
    FieldsOf(r);
    ProductValue(a, b);
    SignificandBounds(a, b);
    var s := Significand(a) * Significand(b);
    var m := Magnitude(Unsigned(a)) * Magnitude(Unsigned(b));
    if EntersAsSubnormal(a, b) {
      assert s >= 0x80_0000;
      SubnormalEntryDoubles(s);
      if IsProduct(a, b, r) {
        NotBothRoundings(s as real / 16.0, Unsigned(r), Unsigned(r));
      }
    } else {
      assert m == Ldexp(s as real, EntryScale(Scale(a) + Scale(b) - 147, s) - 153);
      if RoundsUpToNormal(m) {
        RoundsUpMeansSmallestNormal(m);
        if IsProduct(a, b, r) {
          RoundsToUnique(m, HIDDEN, Unsigned(r));
        }
      }
    }
  }

  /** The value the normaliser receives. */
  lemma RoundedValue(a: Word, b: Word)
    requires IsFinite(a) && IsFinite(b)
    ensures var s := Significand(a) * Significand(b);
      s >= 0 ==> Rounded(a, b) == Ldexp(s as real, EntryScale(Scale(a) + Scale(b) - 147, s) - 153)
  {
    hide Ldexp, Magnitude, Significand, Scale;
    ProductValue(a, b);
    LdexpStep((Significand(a) * Significand(b)) as real, -153);
  }

  lemma ProductOrTwice(a: Word, b: Word, r: Word, sign: int)
    requires IsFinite(a) && IsFinite(b) && sign == SignXor(a, b)
    requires var s := Significand(a) * Significand(b);
      s >= 0 && Delivers(sign, Ldexp(s as real, EntryScale(Scale(a) + Scale(b) - 147, s) - 153), r)
    ensures MulDelivers(a, b, r)
  {
    hide Ldexp, Magnitude, RoundsTo, RoundsUpToNormal, Significand, Scale, EntryScale, Rounded, IsZero;
    RoundedValue(a, b);
  }

  /** a * b.  Right exactly when MulFails does not hold, for all 2^64 pairs of operands; and on finite
      nonzero operands otherwise twice the product, or a zero. */
  method InternalFloatMul(b: Word, a: Word) returns (r: Word)
    ensures IsProduct(a, b, r) <==> !MulFails(a, b)
    ensures IsFinite(a) && IsFinite(b) && !IsZero(a) && !IsZero(b) ==> MulDelivers(a, b, r)
  {
    hide Ldexp, Magnitude, RoundsTo, RoundsUpToNormal, MulDelivers;
    FieldsOf(a);
    FieldsOf(b);
    var found, res := FindCorner(CORNER_MUL, a, b);
    if found {
      ghost var i :| 0 <= i < |CORNER_MUL| && Lists(CORNER_MUL[i], a, b) && res == CORNER_MUL[i].res;
      CornerMulIsProduct(i);
      return res;
    }
    CornerMulCovers(a, b);
    if a == P_NAN || a == N_NAN || b == P_NAN || b == N_NAN {
      return if a == P_NAN || b == P_NAN then P_NAN else N_NAN;
    }
    var sign := if Sign(a) == Sign(b) then 0 else 1;
    if a == P_ZERO || a == N_ZERO || b == P_ZERO || b == N_ZERO {
      r := if sign == 1 then N_ZERO else P_ZERO;
      ZeroProduct(a, b, r);
      return;
    }
    if a == P_INF || a == N_INF || b == P_INF || b == N_INF {
      return if sign == 1 then N_INF else P_INF;
    }
    r := MulFinite(a, b, sign);
  }

  lemma ZeroProduct(a: Word, b: Word, r: Word)
    requires (IsZero(a) && !IsInf(b)) || (IsZero(b) && !IsInf(a))
    requires r == SignXor(a, b) * SIGN_BIT
    ensures IsProduct(a, b, r) <==> !IsNaN(a) && !IsNaN(b)
  {
    hide Ldexp, Magnitude, RoundsTo;
    FieldsOf(a);
    FieldsOf(b);
    FieldsOf(r);
    if !IsNaN(a) && !IsNaN(b) {
      MagnitudeZero(a);
      MagnitudeZero(b);
      MagnitudeZero(0);
      ExactRounds(0);
      if IsZero(a) {
        TimesZero(Magnitude(Unsigned(b)));
      } else {
        TimesZero(Magnitude(Unsigned(a)));
      }
    }
  }

  lemma TimesZero(x: real)
    ensures x * 0.0 == 0.0 && 0.0 * x == 0.0
  {
  }

  //// What the condition MulFails comes to

  /** Multiplying the significand by 2^23 raises the exponent by 23. */
  lemma LdexpPlus23(x: real, e: int)
    ensures Ldexp(8388608.0 * x, e) == Ldexp(x, e + 23)
  {
    hide Ldexp;
    Ldexp8(1048576.0 * x, e);
    Ldexp8(131072.0 * x, e + 3);
    Ldexp8(16384.0 * x, e + 6);
    Ldexp8(2048.0 * x, e + 9);
    Ldexp8(256.0 * x, e + 12);
    Ldexp8(32.0 * x, e + 15);
    Ldexp8(4.0 * x, e + 18);
    LdexpShift(2.0 * x, e + 21);
    LdexpShift(x, e + 22);
  }

  /** Normal operands whose exact product is at least 2^-126 are always multiplied correctly. */
  lemma NormalProductsAreRight(a: Word, b: Word)
    requires 1 <= Exponent(a) < 255 && 1 <= Exponent(b) < 255
    requires Magnitude(Unsigned(a)) * Magnitude(Unsigned(b)) >= SmallestNormal()
    ensures !MulFails(a, b)
  {
    hide Ldexp, Magnitude, EntersAsSubnormal, RoundsUpToNormal, SmallestNormal;
    NotNearNormal(Magnitude(Unsigned(a)) * Magnitude(Unsigned(b)));
    NormalEntry(a, b);
  }

  /** 2^-126. */
  function SmallestNormal(): real { Magnitude(HIDDEN) }

  lemma NotNearNormal(m: real)
    requires m >= SmallestNormal()
    ensures !RoundsUpToNormal(m)
  {
    hide Ldexp, Magnitude;
    PatternOf(1, HIDDEN);
    LdexpShift(8388608.0, -150);
  }

  lemma NormalEntry(a: Word, b: Word)
    requires 1 <= Exponent(a) < 255 && 1 <= Exponent(b) < 255
    ensures !EntersAsSubnormal(a, b)
  {
    NormalSignificand(a);
    NormalSignificand(b);
    hide Significand, Exponent, Scale;
    ProductBounds(Significand(a), Significand(b));
  }

  lemma NormalSignificand(w: Word)
    requires 1 <= Exponent(w) < 255
    ensures 0x80_0000 <= Significand(w) < 0x100_0000
  {
  }

  lemma PlainProduct(a: Word, b: Word, r: Word)
    requires 0 < Unsigned(a) < INF_BITS && 0 < Unsigned(b) < INF_BITS
    ensures !IsNaN(a) && !IsNaN(b) && !IsInf(a) && !IsInf(b) && !IsZero(a) && !IsZero(b)
    ensures RoundsUpToNormal(Magnitude(Unsigned(a)) * Magnitude(Unsigned(b))) ==> MulFails(a, b)
    ensures var m := Magnitude(Unsigned(a)) * Magnitude(Unsigned(b));
      Sign(r) == SignXor(a, b) && RoundsTo(m, Unsigned(r)) ==> IsProduct(a, b, r)
  {
    hide Ldexp, Magnitude, RoundsTo, RoundsUpToNormal;
    FieldsOf(a);
    FieldsOf(b);
  }

  lemma CarryFields(a: Word, b: Word)
    requires a == 0x00FF_FFFF && b == 0x3F00_0000
    ensures 0 < Unsigned(a) < INF_BITS && 0 < Unsigned(b) < INF_BITS && SignXor(a, b) == 0
    ensures Significand(a) * Significand(b) == 16777215 * 8388608 && Scale(a) + Scale(b) == 127
  {
  }

  /** 0x00FFFFFF is the largest number below 2^-125; half of it should round up to 2^-126. */
  lemma MulLosesTheCarry()
    ensures MulFails(0x00FF_FFFF, 0x3F00_0000)
    ensures IsProduct(0x00FF_FFFF, 0x3F00_0000, 0x0080_0000)
  {
    hide Ldexp, Magnitude, RoundsTo, RoundsUpToNormal, IsProduct, MulFails, Significand, Scale;
    hide SignXor, Unsigned, Sign;
    var a, b := 0x00FF_FFFF, 0x3F00_0000;
    CarryFields(a, b);
    var m := Magnitude(Unsigned(a)) * Magnitude(Unsigned(b));
    PlainProduct(a, b, HIDDEN);
    ProductValue(a, b);
    CarryValue(m, -173);
    RoundsUpMeansSmallestNormal(m);
    NormalFields();
  }

  lemma CarryValue(m: real, e: int)
    requires m == Ldexp((16777215 * 8388608) as real, e) && e == -173
    ensures RoundsUpToNormal(m)
  {
    hide Ldexp;
    LdexpPlus23(16777215.0, e);
    LdexpOrder(16777215.0, 16777216.0, e + 23);
  }

  lemma NormalFields()
    ensures Sign(HIDDEN) == 0 && Unsigned(HIDDEN) == HIDDEN
  {
  }

  /** 2^-149 times 2^19 is delivered as 2^-129 instead of 2^-130. */
  lemma MulDoubles()
    ensures MulFails(0x0000_0001, 0x4900_0000)
  {
    hide Ldexp, Magnitude, RoundsTo;
  }

  /** An infinity plus a NaN other than the default ones: the sum is a NaN, but the code returns the
      infinity, so the condition of InternalFloatAdd is met by real operands. */
  lemma AddLosesANaN()
    ensures var a, b: Word := INF_BITS, 0x7f80_0001; IsInf(a) && IsNaN(b) && !IsQuietNaN(b)
    ensures !IsSum(INF_BITS, 0x7f80_0001, INF_BITS)
  {
    hide Value, Rounded;
  }

  /** A NaN other than the default ones times 1: it is multiplied like a number. */
  lemma MulTakesANaN()
    ensures MulFails(0x7f80_0001, 0x3f80_0000)
  {
    hide Ldexp, Magnitude, RoundsUpToNormal, EntersAsSubnormal;
  }

  /** Sums and differences are right on every pair of finite operands, and x - x is +0. */
  lemma SelfDifference(a: Word, r: Word)
    requires IsFinite(a) && IsDifference(a, a, r)
    ensures r == P_ZERO
  {
    hide Magnitude;
    FieldsOf(a);
    FieldsOf(Negate(a));
  }
}
