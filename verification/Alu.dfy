/** Addition, subtraction and the flags of nemu/src/cpu/alu.c, and the multi-word carry chains the
    compiler builds from them. */
module Alu {
  import opened Common

  const RADIX: int := 0x1_0000_0000

  //// What the flags mean

  function SignBit(w: Word): int { w / 0x8000_0000 }

  /** The two's complement reading of a word. */
  function Signed(w: Word): int { if SignBit(w) == 1 then w - RADIX else w }

  predicate FitsSigned(n: int) { -0x8000_0000 <= n < 0x8000_0000 }

  function BoolBit(b: bool): int { if b then 1 else 0 }

  /** The number of one bits of a byte. */
  function OnesOf(v: bv8): int {
    BoolBit(v & 0x01 != 0) + BoolBit(v & 0x02 != 0) + BoolBit(v & 0x04 != 0) + BoolBit(v & 0x08 != 0)
    + BoolBit(v & 0x10 != 0) + BoolBit(v & 0x20 != 0) + BoolBit(v & 0x40 != 0) + BoolBit(v & 0x80 != 0)
  }

  /** What is left of a word in a char: bits 0 to 7. */
  function LowByte(w: Word): bv8 {
    (if w % 2 == 1 then 0x01 else 0) | (if w / 2 % 2 == 1 then 0x02 else 0)
    | (if w / 4 % 2 == 1 then 0x04 else 0) | (if w / 8 % 2 == 1 then 0x08 else 0)
    | (if w / 16 % 2 == 1 then 0x10 else 0) | (if w / 32 % 2 == 1 then 0x20 else 0)
    | (if w / 64 % 2 == 1 then 0x40 else 0) | (if w / 128 % 2 == 1 then 0x80 else 0)
  }

  /** How many of bits 0 to 7 of a number are one. */
  function LowOnes(n: int): int {
    n % 2 + n / 2 % 2 + n / 4 % 2 + n / 8 % 2 + n / 16 % 2 + n / 32 % 2 + n / 64 % 2 + n / 128 % 2
  }

  lemma OnesOfLowByte(w: Word)
    ensures OnesOf(LowByte(w)) == LowOnes(w)
  {
    hide OnesOf;
    OnesOfBits(w % 2 == 1, w / 2 % 2 == 1, w / 4 % 2 == 1, w / 8 % 2 == 1,
               w / 16 % 2 == 1, w / 32 % 2 == 1, w / 64 % 2 == 1, w / 128 % 2 == 1);
  }

  lemma OnesOfBits(b0: bool, b1: bool, b2: bool, b3: bool, b4: bool, b5: bool, b6: bool, b7: bool)
    ensures OnesOf((if b0 then 0x01 else 0) | (if b1 then 0x02 else 0) | (if b2 then 0x04 else 0)
                   | (if b3 then 0x08 else 0) | (if b4 then 0x10 else 0) | (if b5 then 0x20 else 0)
                   | (if b6 then 0x40 else 0) | (if b7 then 0x80 else 0))
         == BoolBit(b0) + BoolBit(b1) + BoolBit(b2) + BoolBit(b3)
            + BoolBit(b4) + BoolBit(b5) + BoolBit(b6) + BoolBit(b7)
  {
  }

  datatype Flags = Flags(cf: int, pf: int, zf: int, sf: int, of: int)

  /** PF, ZF and SF, which every operation sets from its result. */
  predicate ResultFlags(f: Flags, res: Word) {
    && f.pf == BoolBit(LowOnes(res) % 2 == 0)
    && f.zf == BoolBit(res == 0)
    && f.sf == BoolBit(Signed(res) < 0)
  }

  /** v & (v - 1) has one one bit less. */
  lemma ClearLowestBit(v: bv8)
    requires v != 0
    ensures OnesOf(v & (v - 1)) == OnesOf(v) - 1
  {
    // by the position of the lowest one bit
    if v & 0x01 != 0 {
    } else if v & 0x02 != 0 {
    } else if v & 0x04 != 0 {
    } else if v & 0x08 != 0 {
    }
  }

  lemma OnesOfZero()
    ensures OnesOf(0) == 0
  {
  }

  function Wrap(n: int): Word { n % RADIX }

  /** ~x on 32 bits. */
  function Not(x: Word): Word { RADIX - 1 - x }

  //// The operations on values: result, carry out and signed overflow, as integers have them

  /** dest + src + carry, split into a word and a carry. */
  predicate AddsTo(res: Word, cf: int, src: Word, dest: Word, carry: int) {
    0 <= cf <= 1 && res + cf * RADIX == dest + src + carry
  }

  /** dest - src - borrow. */
  predicate SubtractsTo(res: Word, cf: int, src: Word, dest: Word, borrow: int) {
    0 <= cf <= 1 && res - cf * RADIX == dest - src - borrow
  }

  /** The sign test finds the sums that leave the signed range, carry included. */
  lemma SumOverflow(res: Word, src: Word, dest: Word, carry: int)
    requires 0 <= carry <= 1 && res == Wrap(dest + src + carry)
    ensures SignBit(src) == SignBit(dest) && SignBit(src) != SignBit(res)
      <==> !FitsSigned(Signed(dest) + Signed(src) + carry)
  {
  }

  /** Subtracting is adding the complement with the opposite carry. */
  lemma ComplementSum(src: Word, dest: Word, borrow: int)
    requires 0 <= borrow <= 1
    ensures Wrap(dest - src - borrow) == Wrap(dest + Not(src) + (1 - borrow))
    ensures Signed(Not(src)) == -Signed(src) - 1
  {
  }

  lemma DifferenceOverflow(res: Word, src: Word, dest: Word, borrow: int)
    requires 0 <= borrow <= 1 && res == Wrap(dest - src - borrow)
    ensures SignBit(Not(src)) == SignBit(dest) && SignBit(Not(src)) != SignBit(res)
      <==> !FitsSigned(Signed(dest) - Signed(src) - borrow)
  {
    ComplementSum(src, dest, borrow);
    SumOverflow(res, Not(src), dest, 1 - borrow);
  }

  /** Lines 40-43: the two comparisons find the carry of a three-term sum. */
  lemma SumCarry(src: Word, dest: Word, carry: int)
    requires 0 <= carry <= 1
    ensures var sum, res := Wrap(src + dest), Wrap(src + dest + carry);
      AddsTo(res, BoolBit(res < sum || sum < src), src, dest, carry)
  {
  }

  /** Line 88: so do these two for the borrow. */
  lemma DifferenceBorrow(src: Word, dest: Word, borrow: int)
    requires 0 <= borrow <= 1
    ensures SubtractsTo(Wrap(dest - src - borrow), BoolBit(dest < src || Wrap(dest - src) < borrow), src, dest, borrow)
  {
  }

  class Cpu {
    var flags: Flags

    constructor ()
      ensures flags == Flags(0, 0, 0, 0, 0)
    {
      flags := Flags(0, 0, 0, 0, 0);
    }

    method SetPF(res: Word)
      modifies this
      ensures flags == old(flags).(pf := BoolBit(LowOnes(res) % 2 == 0))
    {
      hide OnesOf, LowByte, LowOnes;
      var temp := LowByte(res);
      var cnt := 0;
      OnesOfLowByte(res);
      OnesOfZero();
      while temp != 0
        invariant cnt >= 0 && cnt + OnesOf(temp) == OnesOf(LowByte(res))
        invariant flags == old(flags)
        decreases temp
      {
        ClearLowestBit(temp);
        cnt := cnt + 1;
        temp := temp & (temp - 1);
      }
      flags := flags.(pf := if cnt % 2 == 1 then 0 else 1);
    }

    method SetZF(res: Word)
      modifies this
      ensures flags == old(flags).(zf := BoolBit(res == 0))
    {
      flags := flags.(zf := if res == 0 then 1 else 0);
    }

    method SetSF(res: Word)
      modifies this
      ensures flags == old(flags).(sf := BoolBit(Signed(res) < 0))
    {
      flags := flags.(sf := SignBit(res));
    }

    /** judge: of a sum with or without a carry it says whether the sum of the signed operands leaves
        the signed range. */
    method Judge(res: Word, src: Word, dest: Word) returns (b: bool)
      ensures res == Wrap(dest + src) ==> (b <==> !FitsSigned(Signed(dest) + Signed(src)))
      ensures res == Wrap(dest + src + 1) ==> (b <==> !FitsSigned(Signed(dest) + Signed(src) + 1))
    {
      hide Wrap, Signed, FitsSigned, SignBit;
      b := SignBit(src) == SignBit(dest) && SignBit(src) != SignBit(res);
      if res == Wrap(dest + src) {
        SumOverflow(res, src, dest, 0);
      }
      if res == Wrap(dest + src + 1) {
        SumOverflow(res, src, dest, 1);
      }
    }

    method Add(src: Word, dest: Word) returns (ret: Word)
      modifies this
      ensures AddsTo(ret, flags.cf, src, dest, 0) && ResultFlags(flags, ret)
      ensures flags.of == BoolBit(!FitsSigned(Signed(dest) + Signed(src)))
    {
      hide LowOnes, Signed, FitsSigned, SignBit;
      ret := Wrap(dest + src);
      flags := flags.(cf := if ret < src then 1 else 0);
      SetPF(ret);
      SetZF(ret);
      SetSF(ret);
      var of := Judge(ret, src, dest);
      flags := flags.(of := if of then 1 else 0);
    }

    method Adc(src: Word, dest: Word) returns (ret: Word)
      requires 0 <= flags.cf <= 1
      modifies this
      ensures AddsTo(ret, flags.cf, src, dest, old(flags.cf)) && ResultFlags(flags, ret)
      ensures flags.of == BoolBit(!FitsSigned(Signed(dest) + Signed(src) + old(flags.cf)))
    {
      hide LowOnes, Signed, FitsSigned, SignBit, Wrap, AddsTo;
      SumCarry(src, dest, flags.cf);
      var carry := flags.cf;
      ret := Wrap(src + dest + carry);
      var sum := Wrap(src + dest);
      flags := flags.(cf := if ret < sum || sum < src then 1 else 0);
      var of := Judge(ret, src, dest);
      flags := flags.(of := if of then 1 else 0);
      SetSF(ret);
      SetZF(ret);
      SetPF(ret);
    }

    method Sub(src: Word, dest: Word) returns (res: Word)
      modifies this
      ensures SubtractsTo(res, flags.cf, src, dest, 0) && ResultFlags(flags, res)
      ensures flags.of == BoolBit(!FitsSigned(Signed(dest) - Signed(src)))
    {
      hide LowOnes, Signed, FitsSigned, SignBit, Wrap, SubtractsTo, Not;
      ComplementSum(src, dest, 0);
      DifferenceBorrow(src, dest, 0);
      assert Wrap(dest - src - 0) == Wrap(dest - src) >= 0;
      res := Wrap(dest - src);
      var of := Judge(res, Not(src), dest);
      flags := flags.(of := if of then 1 else 0);
      flags := flags.(cf := if src > dest then 1 else 0);
      SetPF(res);
      SetSF(res);
      SetZF(res);
    }

    method Sbb(src: Word, dest: Word) returns (res: Word)
      requires 0 <= flags.cf <= 1
      modifies this
      ensures SubtractsTo(res, flags.cf, src, dest, old(flags.cf)) && ResultFlags(flags, res)
      ensures flags.of == BoolBit(!FitsSigned(Signed(dest) - Signed(src) - old(flags.cf)))
    {
      hide LowOnes, Signed, FitsSigned, SignBit, Wrap, SubtractsTo, Not;
      ComplementSum(src, dest, flags.cf);
      DifferenceBorrow(src, dest, flags.cf);
      var carry := flags.cf;
      res := Wrap(dest - src - carry);
      var of := Judge(res, Not(src), dest);
      flags := flags.(of := if of then 1 else 0);
      flags := flags.(cf := if dest < src || Wrap(dest - src) < flags.cf then 1 else 0);
      SetSF(res);
      SetPF(res);
      SetZF(res);
    }
  }

  //// Carry chains

  /** The number a sequence of words stands for, lowest word first. */
  function Number(ws: seq<Word>): int {
    if ws == [] then 0 else ws[0] + RADIX * Number(ws[1..])
  }

  function Power(n: nat): int { if n == 0 then 1 else RADIX * Power(n - 1) }

  /** Every step of an addition chain: `cs[i]` is the carry into word i, the last one the carry out. */
  predicate AddChain(a: seq<Word>, b: seq<Word>, res: seq<Word>, cs: seq<int>) {
    && |a| == |b| == |res| && |cs| == |a| + 1
    && forall i :: 0 <= i < |a| ==> AddsTo(res[i], cs[i + 1], b[i], a[i], cs[i])
  }

  predicate SubChain(a: seq<Word>, b: seq<Word>, res: seq<Word>, cs: seq<int>) {
    && |a| == |b| == |res| && |cs| == |a| + 1
    && forall i :: 0 <= i < |a| ==> SubtractsTo(res[i], cs[i + 1], b[i], a[i], cs[i])
  }

  lemma {:induction false} AddChainAdds(a: seq<Word>, b: seq<Word>, res: seq<Word>, cs: seq<int>)
    requires AddChain(a, b, res, cs)
    ensures Number(res) + cs[|a|] * Power(|a|) == Number(a) + Number(b) + cs[0]
    decreases |a|
  {
    if a != [] {
      AddChainAdds(a[1..], b[1..], res[1..], cs[1..]);
      Carry(cs[|a|], Power(|a| - 1));
    }
  }

  lemma {:induction false} SubChainSubtracts(a: seq<Word>, b: seq<Word>, res: seq<Word>, cs: seq<int>)
    requires SubChain(a, b, res, cs)
    ensures Number(res) - cs[|a|] * Power(|a|) == Number(a) - Number(b) - cs[0]
    decreases |a|
  {
    if a != [] {
      SubChainSubtracts(a[1..], b[1..], res[1..], cs[1..]);
      Carry(cs[|a|], Power(|a| - 1));
    }
  }

  lemma Carry(c: int, p: int)
    ensures RADIX * (c * p) == c * (RADIX * p)
  {
  }

  /** An n-word number is below 2^(32n), ... */
  lemma {:induction false} NumberBound(ws: seq<Word>)
    ensures 0 <= Number(ws) < Power(|ws|)
  {
    if ws != [] {
      NumberBound(ws[1..]);
    }
  }

  lemma BoolBits()
    ensures BoolBit(true) == 1 && BoolBit(false) == 0
  {
  }

  lemma CarryDecides(n: int, c: int, p: int, s: int)
    requires 0 <= n < p && 0 <= c <= 1 && n + c * p == s
    ensures c == 1 <==> s >= p
    ensures n == if s >= p then s - p else s
  {
    if c == 1 {
      assert n + p == s;
    }
  }

  lemma BorrowDecides(n: int, c: int, p: int, s: int)
    requires 0 <= n < p && 0 <= c <= 1 && n - c * p == s
    ensures c == 1 <==> s < 0
    ensures n == if s < 0 then s + p else s
  {
    if c == 1 {
      assert n - p == s;
    }
  }

  /** ... so the final carry says whether the sum needs another bit, and the words are the rest. */
  lemma AddChainCarry(a: seq<Word>, b: seq<Word>, res: seq<Word>, cs: seq<int>)
    requires AddChain(a, b, res, cs) && cs[0] == 0 && 0 < |a|
    ensures cs[|a|] == BoolBit(Number(a) + Number(b) >= Power(|a|))
    ensures var sum, p := Number(a) + Number(b), Power(|a|);
      Number(res) == if sum >= p then sum - p else sum
  {
    AddChainAdds(a, b, res, cs);
    NumberBound(a);
    NumberBound(b);
    NumberBound(res);
    assert AddsTo(res[|a| - 1], cs[|a|], b[|a| - 1], a[|a| - 1], cs[|a| - 1]);
    hide *;
    CarryDecides(Number(res), cs[|a|], Power(|a|), Number(a) + Number(b));
    assert BoolBit(true) == 1 && BoolBit(false) == 0 by { BoolBits(); }
  }

  /** The final borrow says whether the minuend was the smaller number. */
  lemma SubChainBorrow(a: seq<Word>, b: seq<Word>, res: seq<Word>, cs: seq<int>)
    requires SubChain(a, b, res, cs) && cs[0] == 0 && 0 < |a|
    ensures cs[|a|] == BoolBit(Number(a) < Number(b))
    ensures Number(res) == if Number(a) < Number(b) then Number(a) - Number(b) + Power(|a|) else Number(a) - Number(b)
  {
    SubChainSubtracts(a, b, res, cs);
    NumberBound(a);
    NumberBound(b);
    NumberBound(res);
    assert SubtractsTo(res[|a| - 1], cs[|a|], b[|a| - 1], a[|a| - 1], cs[|a| - 1]);
    hide *;
    BorrowDecides(Number(res), cs[|a|], Power(|a|), Number(a) - Number(b));
    assert BoolBit(true) == 1 && BoolBit(false) == 0 by { BoolBits(); }
  }

  //// Running a chain

  /** The two's complement reading of a nonempty sequence of words. */
  function SignedNumber(ws: seq<Word>): int
    requires ws != []
  {
    Number(ws[..|ws| - 1]) + Power(|ws| - 1) * Signed(ws[|ws| - 1])
  }

  /** What `n + 1` words can hold as a signed number. */
  predicate FitsSignedWords(x: int, n: nat) {
    -0x8000_0000 * Power(n) <= x < 0x8000_0000 * Power(n)
  }

  /** The low words of a multi-word number only fill up the unit of its top word. */
  lemma TopDecides(low: int, p: int, top: int)
    requires 0 <= low < p
    ensures -0x8000_0000 * p <= low + p * top < 0x8000_0000 * p <==> FitsSigned(top)
  {
    if top >= 0x8000_0000 {
      Scaled(p, 0x8000_0000, top);
    } else if top < -0x8000_0000 {
      Scaled(p, top + 1, -0x8000_0000);
    } else {
      Scaled(p, -0x8000_0000, top);
      Scaled(p, top + 1, 0x8000_0000);
    }
  }

  lemma Scaled(p: int, x: int, y: int)
    requires 0 <= p && x <= y
    ensures p * x <= p * y && x * p == p * x && y * p == p * y && p * (x + 1) == p * x + p && p * (x - 1) == p * x - p
  {
  }

  lemma SumOfProducts(p: int, x: int, y: int, c: int)
    ensures p * (x + y + c) == p * x + p * y + c * p && p * (x - y - c) == p * x - p * y - c * p
  {
  }

  /** The signed overflow of the whole is that of the top word, carry from below included. */
  lemma AddChainOverflow(a: seq<Word>, b: seq<Word>, res: seq<Word>, cs: seq<int>)
    requires AddChain(a, b, res, cs) && cs[0] == 0 && a != []
    ensures var n := |a| - 1;
      FitsSignedWords(SignedNumber(a) + SignedNumber(b), n) <==> FitsSigned(Signed(a[n]) + Signed(b[n]) + cs[n])
  {
    hide Signed, FitsSigned, Number, Power;
    var n := |a| - 1;
    var p, top := Power(n), Signed(a[n]) + Signed(b[n]) + cs[n];
    AddChainAdds(a[..n], b[..n], res[..n], cs[..n + 1]);
    NumberBound(res[..n]);
    SumOfProducts(p, Signed(a[n]), Signed(b[n]), cs[n]);
    assert SignedNumber(a) + SignedNumber(b) == Number(res[..n]) + p * top;
    TopDecides(Number(res[..n]), p, top);
  }

  lemma SubChainOverflow(a: seq<Word>, b: seq<Word>, res: seq<Word>, cs: seq<int>)
    requires SubChain(a, b, res, cs) && cs[0] == 0 && a != []
    ensures var n := |a| - 1;
      FitsSignedWords(SignedNumber(a) - SignedNumber(b), n) <==> FitsSigned(Signed(a[n]) - Signed(b[n]) - cs[n])
  {
    hide Signed, FitsSigned, Number, Power;
    var n := |a| - 1;
    var p, top := Power(n), Signed(a[n]) - Signed(b[n]) - cs[n];
    SubChainSubtracts(a[..n], b[..n], res[..n], cs[..n + 1]);
    NumberBound(res[..n]);
    SumOfProducts(p, Signed(a[n]), Signed(b[n]), cs[n]);
    assert SignedNumber(a) - SignedNumber(b) == Number(res[..n]) + p * top;
    TopDecides(Number(res[..n]), p, top);
  }

  /** An addition of any number of words: add for the lowest, adc for the others. */
  method AddWords(cpu: Cpu, a: seq<Word>, b: seq<Word>) returns (res: seq<Word>, ghost cs: seq<int>)
    requires |a| == |b| > 0
    modifies cpu
    ensures AddChain(a, b, res, cs) && cs[0] == 0 && cpu.flags.cf == cs[|a|]
    ensures Number(res) + cpu.flags.cf * Power(|a|) == Number(a) + Number(b)
    ensures cpu.flags.of == BoolBit(!FitsSignedWords(SignedNumber(a) + SignedNumber(b), |a| - 1))
  {
    hide Signed, FitsSigned, Number, Power, ResultFlags, FitsSignedWords, SignedNumber;
    var w := cpu.Add(b[0], a[0]);
    res, cs := [w], [0, cpu.flags.cf];
    for i := 1 to |a|
      invariant AddChain(a[..i], b[..i], res, cs) && cs[0] == 0 && cpu.flags.cf == cs[i]
      invariant 0 <= cpu.flags.cf <= 1
      invariant cpu.flags.of == BoolBit(!FitsSigned(Signed(a[i - 1]) + Signed(b[i - 1]) + cs[i - 1]))
    {
      w := cpu.Adc(b[i], a[i]);
      res, cs := res + [w], cs + [cpu.flags.cf];
    }
    assert a[..|a|] == a && b[..|b|] == b;
    AddChainAdds(a, b, res, cs);
    AddChainOverflow(a, b, res, cs);
  }

  /** And a subtraction: sub for the lowest word, sbb for the others. */
  method SubWords(cpu: Cpu, a: seq<Word>, b: seq<Word>) returns (res: seq<Word>, ghost cs: seq<int>)
    requires |a| == |b| > 0
    modifies cpu
    ensures SubChain(a, b, res, cs) && cs[0] == 0 && cpu.flags.cf == cs[|a|]
    ensures Number(res) - cpu.flags.cf * Power(|a|) == Number(a) - Number(b)
    ensures cpu.flags.of == BoolBit(!FitsSignedWords(SignedNumber(a) - SignedNumber(b), |a| - 1))
  {
    hide Signed, FitsSigned, Number, Power, ResultFlags, FitsSignedWords, SignedNumber;
    var w := cpu.Sub(b[0], a[0]);
    res, cs := [w], [0, cpu.flags.cf];
    for i := 1 to |a|
      invariant SubChain(a[..i], b[..i], res, cs) && cs[0] == 0 && cpu.flags.cf == cs[i]
      invariant 0 <= cpu.flags.cf <= 1
      invariant cpu.flags.of == BoolBit(!FitsSigned(Signed(a[i - 1]) - Signed(b[i - 1]) - cs[i - 1]))
    {
      w := cpu.Sbb(b[i], a[i]);
      res, cs := res + [w], cs + [cpu.flags.cf];
    }
    assert a[..|a|] == a && b[..|b|] == b;
    SubChainSubtracts(a, b, res, cs);
    SubChainOverflow(a, b, res, cs);
  }

  /** The two instructions a 64-bit addition compiles to. */
  method AddLongLong(cpu: Cpu, lo1: Word, hi1: Word, lo2: Word, hi2: Word) returns (lo: Word, hi: Word)
    modifies cpu
    ensures lo + RADIX * hi + RADIX * RADIX * cpu.flags.cf == (lo1 + RADIX * hi1) + (lo2 + RADIX * hi2)
    ensures cpu.flags.of == 1 <==>
      var sum := (lo1 + RADIX * Signed(hi1)) + (lo2 + RADIX * Signed(hi2));
      !(-0x8000_0000_0000_0000 <= sum < 0x8000_0000_0000_0000)
  {
    lo := cpu.Add(lo1, lo2);
    hi := cpu.Adc(hi1, hi2);
  }

  /** And a 64-bit subtraction. */
  method SubLongLong(cpu: Cpu, lo1: Word, hi1: Word, lo2: Word, hi2: Word) returns (lo: Word, hi: Word)
    modifies cpu
    ensures lo + RADIX * hi - RADIX * RADIX * cpu.flags.cf == (lo2 + RADIX * hi2) - (lo1 + RADIX * hi1)
    ensures cpu.flags.of == 1 <==>
      var difference := (lo2 + RADIX * Signed(hi2)) - (lo1 + RADIX * Signed(hi1));
      !(-0x8000_0000_0000_0000 <= difference < 0x8000_0000_0000_0000)
  {
    lo := cpu.Sub(lo1, lo2);
    hi := cpu.Sbb(hi1, hi2);
  }
}
