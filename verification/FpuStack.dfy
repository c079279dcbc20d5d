/** The x87 register stack of nemu/src/cpu/fpu.c:304-404: eight slots and a top pointer that
    wraps around, seen by instructions as ST(0) .. ST(7). */
module FpuStack {
  import opened Common
  import opened Ieee754
  import Fpu

  /** Pushing overwrites the deepest register; popping leaves the old top as the deepest. */
  function Pushed(st: seq<Word>, val: Word): seq<Word>
    requires |st| == 8
  {
    [val] + st[..7]
  }

  function Popped(st: seq<Word>): seq<Word>
    requires |st| == 8
  {
    st[1..] + [st[0]]
  }

  function PushAll(st: seq<Word>, vals: seq<Word>): (r: seq<Word>)
    requires |st| == 8
    ensures |r| == 8
  {
    if vals == [] then st else Pushed(PushAll(st, vals[..|vals| - 1]), vals[|vals| - 1])
  }

  /** The values `n` pops deliver, in order. */
  function PopMany(st: seq<Word>, n: nat): (r: seq<Word>)
    requires |st| == 8
    ensures |r| == n
    decreases n
  {
    if n == 0 then [] else [st[0]] + PopMany(Popped(st), n - 1)
  }

  /** After any number of pushes the latest eight values are on the stack, the latest first. */
  lemma {:induction false} PushedOrder(st: seq<Word>, vals: seq<Word>, k: nat)
    requires |st| == 8 && k < 8
    ensures PushAll(st, vals)[k] == if k < |vals| then vals[|vals| - 1 - k] else st[k - |vals|]
  {
    if vals != [] && k > 0 {
      PushedOrder(st, vals[..|vals| - 1], k - 1);
    }
  }

  lemma {:induction false} PoppedOrder(st: seq<Word>, n: nat, k: nat)
    requires |st| == 8 && k < n
    ensures PopMany(st, n)[k] == st[k % 8]
    decreases n
  {
    if k > 0 {
      PoppedOrder(Popped(st), n - 1, k - 1);
      assert Popped(st)[(k - 1) % 8] == st[k % 8];
    }
  }

  /** Last in, first out: any number of loads followed by up to eight stores returns the latest
      values, newest first, whatever the stack held and wherever its top was. */
  lemma LastInFirstOut(st: seq<Word>, vals: seq<Word>, n: nat, k: nat)
    requires |st| == 8 && k < n <= 8 && n <= |vals|
    ensures PopMany(PushAll(st, vals), n)[k] == vals[|vals| - 1 - k]
  {
    PoppedOrder(PushAll(st, vals), n, k);
    PushedOrder(st, vals, k);
  }

  /** The register ST(i) is kept in; any 32-bit index counts modulo 8. */
  function Slot(top: int, i: Word): (r: int)
    requires 0 <= top < 8
    ensures r == if top + i % 8 < 8 then top + i % 8 else top + i % 8 - 8
  {
    SlotIndex(top, i);
    (top + i) % 0x1_0000_0000 % 8
  }

  lemma SlotIndex(top: int, i: Word)
    requires 0 <= top < 8
    ensures (top + i) % 0x1_0000_0000 % 8 == if top + i % 8 < 8 then top + i % 8 else top + i % 8 - 8
  {
    var n := top + i;
    if n >= 0x1_0000_0000 {
      Remainder(n - 0x1_0000_0000, n / 8 - 0x2000_0000, n % 8);
    }
    var j := top + i % 8;
    Remainder(n, if j < 8 then i / 8 else i / 8 + 1, if j < 8 then j else j - 8);
  }

  lemma Remainder(n: int, q: int, r: int)
    requires n == 8 * q + r && 0 <= r < 8
    ensures n % 8 == r
  {
  }

  class Registers {
    var regStack: array<Word>
    var top: int

    ghost predicate Valid()
      reads this
    {
      regStack.Length == 8 && 0 <= top < 8
    }

    /** ST(0) .. ST(7). */
    ghost function St(): (s: seq<Word>)
      requires Valid()
      reads this, regStack
      ensures |s| == 8 && forall i :: 0 <= i < 8 ==> s[i] == regStack[if top + i < 8 then top + i else top + i - 8]
    {
      regStack[top..] + regStack[..top]
    }

    constructor ()
      ensures Valid() && fresh(regStack)
      ensures St() == seq(8, _ => 0)
    {
      regStack := new Word[8](_ => 0);
      top := 0;
    }

    method Load(val: Word)
      requires Valid()
      modifies `top, regStack
      ensures Valid() && St() == Pushed(old(St()), val)
    {
      top := if top == 0 then 7 else top - 1;
      regStack[top] := val;
    }

    method Store() returns (val: Word)
      requires Valid()
      modifies `top
      ensures Valid() && val == old(St())[0] && St() == Popped(old(St()))
    {
      val := regStack[top];
      top := (top + 1) % 8;
    }

    method Peek() returns (val: Word)
      requires Valid()
      ensures val == St()[0]
    {
      val := regStack[top];
    }

    /** ST(0) + val, right for everything but an infinity plus a NaN that is not the default one. */
    method Add(val: Word)
      requires Valid()
      modifies regStack
      ensures Valid() && St()[1..] == old(St())[1..]
      ensures IsSum(old(St())[0], val, St()[0]) <==> !(IsInf(old(St())[0]) && IsNaN(val) && !Fpu.IsQuietNaN(val))
    {
      hide IsSum, IsInf, IsNaN, Slot;
      var r := Fpu.InternalFloatAdd(val, regStack[top]);
      regStack[top] := r;
    }

    /** ST(store) := ST(0) + ST(idx). */
    method AddIdx(idx: Word, store: Word)
      requires Valid()
      modifies regStack
      ensures Valid() && forall i :: 0 <= i < 8 && i != store % 8 ==> St()[i] == old(St())[i]
      ensures var a, b := old(St())[0], old(St())[idx % 8];
        IsSum(a, b, St()[store % 8]) <==> !(IsInf(a) && IsNaN(b) && !Fpu.IsQuietNaN(b))
    {
      hide IsSum, IsInf, IsNaN, Slot;
      var a := regStack[top];
      var b := regStack[Slot(top, idx)];
      var r := Fpu.InternalFloatAdd(b, a);
      regStack[Slot(top, store)] := r;
    }

    /** ST(0) - val. */
    method Sub(val: Word)
      requires Valid()
      modifies regStack
      ensures Valid() && St()[1..] == old(St())[1..]
      ensures IsDifference(old(St())[0], val, St()[0]) <==> !(IsInf(old(St())[0]) && IsNaN(val) && !Fpu.IsQuietNaN(val))
    {
      hide IsDifference, IsInf, IsNaN;
      var r := Fpu.InternalFloatSub(val, regStack[top]);
      regStack[top] := r;
    }

    /** ST(0) * val, right exactly where internal_float_mul is. */
    method Mul(val: Word)
      requires Valid()
      modifies regStack
      ensures Valid() && St()[1..] == old(St())[1..]
      ensures IsProduct(old(St())[0], val, St()[0]) <==> !Fpu.MulFails(old(St())[0], val)
      ensures var a := old(St())[0];
        IsFinite(a) && IsFinite(val) && !IsZero(a) && !IsZero(val) ==> Fpu.MulDelivers(a, val, St()[0])
    {
      hide IsProduct, IsFinite, IsZero, Fpu.MulFails, Fpu.MulDelivers, Slot;
      var r := Fpu.InternalFloatMul(val, regStack[top]);
      regStack[top] := r;
    }

    /** ST(store) := ST(0) * ST(idx). */
    method MulIdx(idx: Word, store: Word)
      requires Valid()
      modifies regStack
      ensures Valid() && forall i :: 0 <= i < 8 && i != store % 8 ==> St()[i] == old(St())[i]
      ensures var a, b := old(St())[0], old(St())[idx % 8];
        IsProduct(a, b, St()[store % 8]) <==> !Fpu.MulFails(a, b)
      ensures var a, b := old(St())[0], old(St())[idx % 8];
        IsFinite(a) && IsFinite(b) && !IsZero(a) && !IsZero(b) ==> Fpu.MulDelivers(a, b, St()[store % 8])
    {
      hide IsProduct, IsFinite, IsZero, Fpu.MulFails, Fpu.MulDelivers, Slot;
      var a := regStack[top];
      var b := regStack[Slot(top, idx)];
      var r := Fpu.InternalFloatMul(b, a);
      regStack[Slot(top, store)] := r;
    }

    /** Exchanges ST(0) and ST(idx). */
    method Xch(idx0: Word)
      requires Valid()
      modifies regStack
      ensures Valid() && St() == old(St())[0 := old(St())[idx0 % 8]][idx0 % 8 := old(St())[0]]
    {
      hide Slot;
      var idx := Slot(top, idx0);
      var temp := regStack[top];
      regStack[top] := regStack[idx];
      regStack[idx] := temp;
    }

    method Copy(idx0: Word)
      requires Valid()
      modifies regStack
      ensures Valid() && St() == old(St())[idx0 % 8 := old(St())[0]]
    {
      hide Slot;
      var idx := Slot(top, idx0);
      regStack[idx] := regStack[top];
    }
  }
}
