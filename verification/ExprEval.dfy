/** The evaluator of nemu/src/monitor/expr.c:211-254 and the precedence grammar it implements. */
module ExprEval {
  import opened Common
  import opened ExprTokens

  /** What a call of eval leaves: a value and the error flag; or the emulator dies on a failed
      assert or a division trap. */
  datatype Outcome = Done(value: Int32, error: bool) | Aborted

  //// Operators on values

  function Truth(b: bool): Int32 { if b then 1 else 0 }

  /** C division truncates toward zero. */
  function Quotient(a: int, b: int): int
    requires b != 0
  {
    if (a < 0) == (b < 0) then Magnitude(a) / Magnitude(b) else -(Magnitude(a) / Magnitude(b))
  }

  function Magnitude(a: int): nat { if a < 0 then -a else a }

  /** None where the hardware traps: a zero divisor, or -2^31 / -1. */
  function ApplyBinary(k: Kind, a: Int32, b: Int32): Option<Int32>
    requires IsBinary(k)
  {
    match k
    case Plus => Some(Wrap(a + b))
    case Sub => Some(Wrap(a - b))
    case Mul => Some(Wrap(a * b))
    case Slash => if b == 0 || (a == -0x8000_0000 && b == -1) then None else Some(Wrap(Quotient(a, b)))
    case And => Some(Truth(a != 0 && b != 0))
    case Or => Some(Truth(a != 0 || b != 0))
    case Eq => Some(Truth(a == b))
    case Ne => Some(Truth(a != b))
  }

  function ApplyPrefix(k: Kind, a: Int32, env: Env): Int32
    requires IsPrefix(k)
  {
    match k
    case Neg => Wrap(0 - a)
    case Not => Truth(a == 0)
    case Deref => env.mem(a)
  }

  /** Lines 232-239: a dominant operator at the front must be a prefix operator. */
  function PrefixResult(k: Kind, arg: Outcome, env: Env): Outcome {
    if !IsPrefix(k) then Done(0, true) else
      match arg
      case Aborted => Aborted
      case Done(v, error) => Done(ApplyPrefix(k, v, env), error)
  }

  /** Lines 241-253: both sides are evaluated, left first; after an error on the left the right side
      counts as 0 with an error. */
  function BinaryResult(k: Kind, left: Outcome, right: Outcome): Outcome {
    match left
    case Aborted => Aborted
    case Done(v1, error1) =>
      match (if error1 then Done(0, true) else right)
      case Aborted => Aborted
      case Done(v2, error2) =>
        if !IsBinary(k) then Done(0, true) else
          match ApplyBinary(k, v1, v2)
          case None => Aborted
          case Some(v) => Done(v, error2)
  }

  /** Lines 241-253 with the operator at -1: both sides are empty ranges, and the switch looks at the
      word before the array.  Never a success. */
  function NoOperator(env: Env): (r: Outcome)
    ensures r.Aborted? || r.error
  {
    BinaryResult(env.before, Done(0, true), Done(0, true))
  }

  //// eval, on the tokens of its range

  function Eval(s: seq<Token>, env: Env): Outcome
    decreases |s|
  {
    if s == [] then Done(0, true)
    else if |s| == 1 then
      match TokenValue(s[0], env)
      case Some(v) => Done(v, false)
      case None => Done(0, true)
    else if Unbalanced(s) then Done(0, true)
    else if Enclosed(s) then Eval(s[1..|s| - 1], env)
    else if HasUnread(s) then Aborted
    else
      var op := Dominant(s);
      if op < 0 then NoOperator(env)
      else if op == 0 then PrefixResult(s[0].kind, Eval(s[1..], env), env)
      else BinaryResult(s[op].kind, Eval(s[..op], env), Eval(s[op + 1..], env))
  }

  /** The recursive cases of eval, one at a time. */
  lemma EvalPrefix(s: seq<Token>, env: Env)
    requires |s| > 1 && !Unbalanced(s) && !Enclosed(s) && !HasUnread(s) && Dominant(s) == 0
    ensures Eval(s, env) == PrefixResult(s[0].kind, Eval(s[1..], env), env)
  {
    hide PrefixResult, BinaryResult, Unbalanced, Enclosed, HasUnread, Dominant, Outside, IsDominant;
  }

  lemma EvalBinary(s: seq<Token>, env: Env, op: nat)
    requires |s| > 1 && !Unbalanced(s) && !Enclosed(s) && !HasUnread(s) && Dominant(s) == op > 0
    ensures Eval(s, env) == BinaryResult(s[op].kind, Eval(s[..op], env), Eval(s[op + 1..], env))
  {
    hide PrefixResult, BinaryResult, Unbalanced, Enclosed, HasUnread, Dominant, Outside, IsDominant;
  }

  lemma EvalEnclosed(s: seq<Token>, env: Env)
    requires |s| > 1 && !Unbalanced(s) && Enclosed(s)
    ensures Eval(s, env) == Eval(s[1..|s| - 1], env)
  {
    hide PrefixResult, BinaryResult, Unbalanced, Enclosed, HasUnread, Dominant, Outside, IsDominant;
  }

  lemma EvalFails(s: seq<Token>, env: Env)
    requires |s| > 1
    ensures Unbalanced(s) ==> Eval(s, env) == Done(0, true)
    ensures !Unbalanced(s) && !Enclosed(s) && HasUnread(s) ==> Eval(s, env) == Aborted
    ensures !Unbalanced(s) && !Enclosed(s) && !HasUnread(s) && Dominant(s) < 0 ==> Eval(s, env) == NoOperator(env)
  {
    hide PrefixResult, BinaryResult, Unbalanced, Enclosed, HasUnread, Dominant, Outside, IsDominant;
  }

  lemma EvalSingle(s: seq<Token>, env: Env)
    requires |s| <= 1
    ensures Eval(s, env) ==
      if s == [] || TokenValue(s[0], env).None? then Done(0, true) else Done(TokenValue(s[0], env).value, false)
  {
    hide TokenValue;
  }

  //// The grammar

  datatype Expr =
    | Atom(t: Token)
    | Paren(open: Token, inner: Expr, close: Token)
    | Unary(op: Token, arg: Expr)
    | Binary(left: Expr, op: Token, right: Expr)

  /** Binding strength of a whole expression; atoms and parentheses bind strongest. */
  function ExprRank(e: Expr): int {
    match e
    case Atom(_) => 5
    case Paren(_, _, _) => 5
    case Unary(op, _) => Rank(op.kind)
    case Binary(_, op, _) => Rank(op.kind)
  }

  /** The grammar: && and || weakest, then == and !=, then + and -, then * and /, then one prefix
      operator, then atoms and parentheses; binary operators associate to the left. */
  predicate Grammatical(e: Expr) {
    match e
    case Atom(t) => IsOperand(t.kind)
    case Paren(open, inner, close) => open.kind.LParen? && close.kind.RParen? && Grammatical(inner)
    case Unary(op, arg) => IsPrefix(op.kind) && Grammatical(arg) && ExprRank(arg) == 5
    case Binary(left, op, right) =>
      && IsBinary(op.kind) && Grammatical(left) && Grammatical(right)
      && ExprRank(left) >= Rank(op.kind) && ExprRank(right) > Rank(op.kind)
  }

  function Print(e: Expr): (s: seq<Token>)
    ensures |s| >= 1
  {
    match e
    case Atom(t) => [t]
    case Paren(open, inner, close) => [open] + Print(inner) + [close]
    case Unary(op, arg) => [op] + Print(arg)
    case Binary(left, op, right) => Print(left) + [op] + Print(right)
  }

  /** The meaning of an expression: defined when every name resolves and no division traps. */
  function Meaning(e: Expr, env: Env): Option<Int32> {
    match e
    case Atom(t) => TokenValue(t, env)
    case Paren(_, inner, _) => Meaning(inner, env)
    case Unary(op, arg) =>
      if !IsPrefix(op.kind) then None else
        (match Meaning(arg, env)
         case None => None
         case Some(v) => Some(ApplyPrefix(op.kind, v, env)))
    case Binary(left, op, right) =>
      if !IsBinary(op.kind) then None else
        (match (Meaning(left, env), Meaning(right, env))
         case (Some(a), Some(b)) => ApplyBinary(op.kind, a, b)
         case _ => None)
  }

  //// Depths of printed expressions

  /** Depths in a concatenation. */
  lemma {:induction false} DepthConcat(s: seq<Token>, t: seq<Token>, i: nat)
    requires i <= |t|
    ensures Depth(s + t, |s| + i) == Depth(s, |s|) + Depth(t, i)
    decreases i
  {
    if i == 0 {
      DepthOfPrefix(s + t, |s|, |s|);
      assert (s + t)[..|s|] == s;
    } else {
      DepthConcat(s, t, i - 1);
    }
  }

  lemma DepthLeft(s: seq<Token>, t: seq<Token>, i: nat)
    requires i <= |s|
    ensures Depth(s + t, i) == Depth(s, i)
  {
    DepthOfPrefix(s + t, |s|, i);
    assert (s + t)[..|s|] == s;
  }

  /** Never below zero, and zero at the end. */
  predicate Balanced(s: seq<Token>) {
    Depth(s, |s|) == 0 && forall i :: 0 <= i <= |s| ==> Depth(s, i) >= 0
  }

  lemma BalancedConcat(s: seq<Token>, t: seq<Token>)
    requires Balanced(s) && Balanced(t)
    ensures Balanced(s + t)
  {
    DepthConcat(s, t, |t|);
    forall i | 0 <= i <= |s + t|
      ensures Depth(s + t, i) >= 0
    {
      if i <= |s| {
        DepthLeft(s, t, i);
      } else {
        DepthConcat(s, t, i - |s|);
      }
    }
  }

  lemma BalancedSingle(t: Token)
    requires !t.kind.LParen? && !t.kind.RParen?
    ensures Balanced([t])
  {
    assert Depth([t], 0) == 0 && Depth([t], 1) == 0;
  }

  /** Depths inside a pair of parentheses are one more. */
  lemma DepthInParens(open: Token, s: seq<Token>, close: Token, i: nat)
    requires open.kind.LParen? && close.kind.RParen? && i <= |s|
    ensures var p := [open] + s + [close];
      Depth(p, 0) == 0 && Depth(p, i + 1) == 1 + Depth(s, i) && Depth(p, |s| + 2) == Depth(s, |s|)
  {
    var p := [open] + s + [close];
    assert p == [open] + (s + [close]);
    assert Depth([open], 1) == 1 by { assert Depth([open], 0) == 0; }
    DepthConcat([open], s + [close], i);
    DepthLeft(s, [close], i);
    DepthConcat([open], s + [close], |s|);
    DepthLeft(s, [close], |s|);
  }

  lemma ParensBalanced(open: Token, s: seq<Token>, close: Token)
    requires open.kind.LParen? && close.kind.RParen? && Balanced(s)
    ensures Balanced([open] + s + [close])
    ensures Enclosed([open] + s + [close])
    ensures forall i :: 0 <= i < |s| + 2 ==> !Outside([open] + s + [close], i)
  {
    var p := [open] + s + [close];
    forall i | 0 <= i <= |p|
      ensures Depth(p, i) >= 0 && (0 < i < |p| ==> Depth(p, i) > 0)
    {
      DepthInParens(open, s, close, if 0 < i < |p| then i - 1 else 0);
    }
    DepthInParens(open, s, close, |s|);
  }

  lemma {:induction false} PrintBalanced(e: Expr)
    requires Grammatical(e)
    ensures Balanced(Print(e))
  {
    match e
    case Atom(t) =>
      BalancedSingle(t);
    case Paren(open, inner, close) =>
      PrintBalanced(inner);
      ParensBalanced(open, Print(inner), close);
    case Unary(op, arg) =>
      PrintBalanced(arg);
      BalancedSingle(op);
      BalancedConcat([op], Print(arg));
    case Binary(left, op, right) =>
      PrintBalanced(left);
      PrintBalanced(right);
      BalancedSingle(op);
      BalancedConcat(Print(left), [op]);
      BalancedConcat(Print(left) + [op], Print(right));
  }

  //// The dominant operator of a printed expression

  lemma OutsideConcat(s: seq<Token>, t: seq<Token>, i: nat)
    requires Depth(s, |s|) == 0 && i < |s + t|
    ensures Outside(s + t, i) <==> if i < |s| then Outside(s, i) else Outside(t, i - |s|)
  {
    if i < |s| {
      DepthLeft(s, t, i);
    } else {
      DepthConcat(s, t, i - |s|);
    }
  }

  /** Three parts in a row. */
  lemma OutsideAround(l: seq<Token>, op: Token, r: seq<Token>, i: nat)
    requires Balanced(l) && IsOperator(op.kind) && i < |l| + 1 + |r|
    ensures var s := l + [op] + r;
      Outside(s, i) <==> if i < |l| then Outside(l, i) else i == |l| || Outside(r, i - |l| - 1)
  {
    BalancedSingle(op);
    DepthConcat(l, [op], 1);
    OutsideConcat(l + [op], r, i);
    if i < |l| + 1 {
      OutsideConcat(l, [op], i);
      assert Depth([op], 0) == 0;
    }
  }

  /** Every token outside parentheses is an operator that binds at least with strength `k`. */
  predicate AllRanked(s: seq<Token>, k: int) {
    forall i :: 0 <= i < |s| && Outside(s, i) ==> IsOperator(s[i].kind) && Rank(s[i].kind) >= k
  }

  /** An operator between tighter parts (at its right strictly tighter) is dominant. */
  lemma DominantBetween(l: seq<Token>, op: Token, r: seq<Token>)
    requires Balanced(l) && IsOperator(op.kind)
    requires AllRanked(l, Rank(op.kind)) && AllRanked(r, Rank(op.kind) + 1)
    ensures AllRanked(l + [op] + r, Rank(op.kind)) && IsDominant(l + [op] + r, |l|)
  {
    hide Outside, Rank, IsOperator, Balanced;
    var s := l + [op] + r;
    OutsideAround(l, op, r, |l|);
    forall i | 0 <= i < |s| && Outside(s, i)
      ensures IsOperator(s[i].kind) && Rank(s[i].kind) >= Rank(op.kind) && (i > |l| ==> Rank(s[i].kind) > Rank(op.kind))
    {
      OutsideAround(l, op, r, i);
      if i < |l| {
        assert s[i] == l[i];
      } else if i > |l| {
        assert s[i] == r[i - |l| - 1];
      }
    }
  }

  /** Every operator outside parentheses binds at least as strongly as the expression, and the
      outermost one is dominant. */
  lemma {:induction false} PrintDominant(e: Expr)
    requires Grammatical(e)
    ensures AllRanked(Print(e), ExprRank(e))
    ensures e.Unary? ==> IsDominant(Print(e), 0)
    ensures e.Binary? ==> IsDominant(Print(e), |Print(e.left)|)
  {
    match e
    case Atom(t) =>
    case Paren(open, inner, close) =>
      PrintBalanced(inner);
      ParensBalanced(open, Print(inner), close);
    case Unary(op, arg) =>
      PrintDominant(arg);
      UnaryDominant(op, arg);
    case Binary(left, op, right) =>
      PrintDominant(left);
      PrintDominant(right);
      BinaryDominant(left, op, right);
  }

  lemma UnaryDominant(op: Token, arg: Expr)
    requires Grammatical(Unary(op, arg)) && AllRanked(Print(arg), ExprRank(arg))
    ensures AllRanked([op] + Print(arg), Rank(op.kind)) && IsDominant([op] + Print(arg), 0)
  {
    hide Outside, IsDominant, AllRanked, Balanced, Rank;
    assert [] + [op] + Print(arg) == [op] + Print(arg);
    EmptyBefore(Rank(op.kind));
    RankBound(op.kind);
    RankedLess(Print(arg), ExprRank(arg), Rank(op.kind) + 1);
    DominantBetween([], op, Print(arg));
  }

  lemma BinaryDominant(left: Expr, op: Token, right: Expr)
    requires Grammatical(Binary(left, op, right))
    requires AllRanked(Print(left), ExprRank(left)) && AllRanked(Print(right), ExprRank(right))
    ensures AllRanked(Print(left) + [op] + Print(right), Rank(op.kind))
    ensures IsDominant(Print(left) + [op] + Print(right), |Print(left)|)
  {
    hide Outside, IsDominant, AllRanked, Balanced, Rank;
    PrintBalanced(left);
    RankedLess(Print(left), ExprRank(left), Rank(op.kind));
    RankedLess(Print(right), ExprRank(right), Rank(op.kind) + 1);
    DominantBetween(Print(left), op, Print(right));
  }

  lemma EmptyBefore(k: int)
    ensures Balanced([]) && AllRanked([], k)
  {
  }

  lemma RankBound(k: Kind)
    ensures 0 <= Rank(k) <= 4
  {
  }

  /** Returning to depth 0 takes a closing parenthesis. */
  lemma {:induction false} FirstReturn(s: seq<Token>, n: nat) returns (i: nat)
    requires 1 <= n <= |s| && Depth(s, 1) == 1 && Depth(s, n) <= 0
    ensures 1 <= i < n && s[i].kind.RParen? && Depth(s, i + 1) == 0
    decreases n
  {
    if Depth(s, n - 1) <= 0 {
      i := FirstReturn(s, n - 1);
    } else {
      i := n - 1;
    }
  }

  lemma BinaryNotEnclosed(l: seq<Token>, op: Token, r: seq<Token>)
    requires Balanced(l) && l != [] && r != []
    ensures !Enclosed(l + [op] + r)
  {
    var s := l + [op] + r;
    if Enclosed(s) {
      assert s == l + ([op] + r);
      DepthLeft(l, [op] + r, |l|);
      assert Depth(s, 0) == 0 && Depth(s, 1) == 1;
      var i := FirstReturn(s, |l|);
    }
  }

  lemma BalancedNotUnbalanced(s: seq<Token>)
    requires Balanced(s)
    ensures !Unbalanced(s)
  {
  }

  //// eval computes the meaning of every expression of the grammar

  lemma EvalOfParens(open: Token, t: seq<Token>, close: Token, env: Env)
    requires open.kind.LParen? && close.kind.RParen? && Balanced(t)
    ensures Eval([open] + t + [close], env) == Eval(t, env)
  {
    hide *;
    var s := [open] + t + [close];
    ParensBalanced(open, t, close);
    BalancedNotUnbalanced(s);
    EvalEnclosed(s, env);
    assert s[1..|s| - 1] == t;
  }

  lemma PrefixFacts(k: Kind)
    requires IsPrefix(k)
    ensures IsOperator(k) && Rank(k) == 4 && !k.LParen? && !k.RParen?
  {
  }

  lemma EvalOfPrefix(op: Token, t: seq<Token>, env: Env)
    requires IsPrefix(op.kind) && Balanced(t) && t != [] && AllRanked(t, 5)
    ensures Eval([op] + t, env) == PrefixResult(op.kind, Eval(t, env), env)
  {
    hide *;
    var s := [op] + t;
    PrefixFacts(op.kind);
    BalancedSingle(op);
    BalancedConcat([op], t);
    BalancedNotUnbalanced(s);
    EmptyBefore(Rank(op.kind));
    assert [] + [op] + t == s;
    RankedLess(t, 5, Rank(op.kind) + 1);
    DominantBetween([], op, t);
    DominantIs(s, 0);
    RankedNotUnread(s, Rank(op.kind));
    NotEnclosedByPrefix(s);
    EvalPrefix(s, env);
    assert s[1..] == t;
  }

  lemma BinaryFacts(k: Kind)
    requires IsBinary(k)
    ensures IsOperator(k) && !k.LParen? && !k.RParen?
  {
  }

  lemma EvalOfBinary(l: seq<Token>, op: Token, r: seq<Token>, env: Env)
    requires IsBinary(op.kind) && Balanced(l) && Balanced(r) && l != [] && r != []
    requires AllRanked(l, Rank(op.kind)) && AllRanked(r, Rank(op.kind) + 1)
    ensures Eval(l + [op] + r, env) == BinaryResult(op.kind, Eval(l, env), Eval(r, env))
  {
    hide *;
    var s := l + [op] + r;
    BinaryFacts(op.kind);
    BalancedSingle(op);
    BalancedConcat(l, [op]);
    BalancedConcat(l + [op], r);
    BalancedNotUnbalanced(s);
    DominantBetween(l, op, r);
    DominantIs(s, |l|);
    RankedNotUnread(s, Rank(op.kind));
    BinaryNotEnclosed(l, op, r);
    EvalBinary(s, env, |l|);
    assert s[..|l|] == l && s[|l| + 1..] == r;
  }

  lemma RankedNotUnread(s: seq<Token>, k: int)
    requires AllRanked(s, k)
    ensures !HasUnread(s)
  {
    hide Outside, Rank;
  }

  lemma RankedLess(s: seq<Token>, j: int, k: int)
    requires AllRanked(s, j) && k <= j
    ensures AllRanked(s, k)
  {
    hide Outside, Rank;
  }

  lemma {:induction false} EvalPrint(e: Expr, env: Env)
    requires Grammatical(e) && Meaning(e, env).Some?
    ensures Eval(Print(e), env) == Done(Meaning(e, env).value, false)
  {
    hide Eval, Balanced, AllRanked;
    match e
    case Atom(t) =>
      EvalSingle([t], env);
    case Paren(open, inner, close) =>
      EvalPrint(inner, env);
      PrintBalanced(inner);
      EvalOfParens(open, Print(inner), close, env);
    case Unary(op, arg) =>
      EvalPrint(arg, env);
      PrintBalanced(arg);
      PrintDominant(arg);
      EvalOfPrefix(op, Print(arg), env);
    case Binary(left, op, right) =>
      EvalPrint(left, env);
      EvalPrint(right, env);
      PrintBalanced(left);
      PrintBalanced(right);
      PrintDominant(left);
      PrintDominant(right);
      RankedLess(Print(left), ExprRank(left), Rank(op.kind));
      RankedLess(Print(right), ExprRank(right), Rank(op.kind) + 1);
      EvalOfBinary(Print(left), op, Print(right), env);
  }

  lemma DominantIs(s: seq<Token>, p: nat)
    requires IsDominant(s, p)
    ensures Dominant(s) == p
  {
    DominantFound(s);
    assert Outside(s, p);
    DominantUnique(s, p, Dominant(s));
  }

  lemma NotEnclosedByPrefix(s: seq<Token>)
    requires s != [] && !s[0].kind.LParen?
    ensures !Enclosed(s)
  {
  }
}
