/** The loops and the recursion of nemu/src/monitor/expr.c over the token array, proved against
    the functions on token sequences. */
module ExprMonitor {
  import opened Common
  import opened ExprTokens
  import opened ExprEval
  import opened ExprGrammar
  import opened ExprArithmetic

  /** What eval leaves against what the tokens spell. */
  lemma AnswerOf(w: seq<Token>, env: Env, ans: Outcome)
    requires FromLexer(w) && ans == Eval(Processed(w), env)
    ensures forall e, v: Int32 :: Expresses(e, w, env, v) ==> ans == Done(v, false)
    ensures ans.Done? && !ans.error ==> exists e :: Expresses(e, w, env, ans.value)
  {
    hide Spells, Expresses, Eval, Processed, FromLexer;
    forall e, v: Int32 | Expresses(e, w, env, v)
      ensures ans == Done(v, false)
    {
      ExpressesSpells(e, w, env, v);
      ExprIffGrammar(w, env, v);
    }
    if ans.Done? && !ans.error {
      ExprIffGrammar(w, env, ans.value);
      var e :| Spells(e, w, env, ans.value);
      ExpressesSpells(e, w, env, ans.value);
    }
  }

  /** And against the value of a short form. */
  lemma AnswerOfForm(f: Form, w: seq<Token>, env: Env, ans: Outcome)
    requires f.From(env) && f.Tokens() == w && ans == Eval(Processed(w), env)
    ensures ans.Done? ==> !ans.error
    ensures forall v: Int32 :: f.Computes(env, v) <==> ans == Done(v, false)
  {
    hide *;
    FormOutcome(f, env);
  }

  /** The switch of lines 243-253, by what the operators stand for. */
  lemma SwitchGives(k: Kind, a: Int32, b: Int32, error: bool)
    ensures var r := BinaryResult(k, Done(a, false), Done(b, error));
      if !IsBinary(k) then r == Done(0, true)
      else (r.Done? ==> r.error == error) && forall v: Int32 :: Gives(k, a, b, v) <==> r == Done(v, error)
  {
    hide ApplyBinary, Gives, IsBinary;
    if IsBinary(k) {
      forall v: Int32 ensures Gives(k, a, b, v) <==> ApplyBinary(k, a, b) == Some(v) {
        BinaryGives(k, a, b, v);
      }
    }
  }

  lemma PrefixCase(k: Kind, o: Outcome, env: Env)
    ensures !IsPrefix(k) ==> PrefixResult(k, o, env) == Done(0, true)
    ensures IsPrefix(k) && o.Aborted? ==> PrefixResult(k, o, env) == Aborted
    ensures IsPrefix(k) && o.Done? ==> PrefixResult(k, o, env) == Done(ApplyPrefix(k, o.value, env), o.error)
  {
    hide ApplyPrefix, IsPrefix;
  }

  lemma SwitchIsNoOperator(env: Env)
    ensures BinaryResult(env.before, Done(0, false), Done(0, true)) == NoOperator(env)
  {
    hide ApplyBinary, IsBinary;
  }

  /** After an error on the left the right side counts as 0 with an error. */
  lemma BinaryCase(k: Kind, o1: Outcome, o2: Outcome)
    ensures o1.Aborted? ==> BinaryResult(k, o1, o2) == Aborted
    ensures o1.Done? && !o1.error && o2.Aborted? ==> BinaryResult(k, o1, o2) == Aborted
    ensures o1.Done? && o1.error ==> BinaryResult(k, o1, o2) == BinaryResult(k, Done(o1.value, false), Done(0, true))
    ensures o1.Done? && !o1.error ==> o1 == Done(o1.value, false)
  {
    hide ApplyBinary, IsBinary;
  }

  /** What dominant's loop knows after the tokens `t`: where the dominant operator is, and its
      rank (1010 while there is none). */
  ghost predicate Found(t: seq<Token>, at: int, none: bool, mn: int) {
    if none then Dominant(t) == -1 && mn == 1010
    else 0 <= at < |t| && Dominant(t) == at && mn == Rank(t[at].kind)
  }

  /** The state of dominant's loop after `n` tokens of `s`. */
  ghost predicate Scanned(s: seq<Token>, n: nat, tot: int, at: int, none: bool, mn: int) {
    && n <= |s| && tot == Depth(s, n) && Found(s[..n], at, none, mn)
    && forall k :: 0 <= k < n && Outside(s, k) ==> !s[k].kind.Minus? && !s[k].kind.Star?
  }

  lemma ScanStart(s: seq<Token>, at: int)
    ensures Scanned(s, 0, 0, at, true, 1010)
  {
    assert s[..0] == [];
  }

  lemma ScanEnd(s: seq<Token>, tot: int, at: int, none: bool, mn: int)
    requires Scanned(s, |s|, tot, at, none, mn)
    ensures !HasUnread(s) && (if none then Dominant(s) == -1 else Dominant(s) == at >= 0)
  {
    assert s[..|s|] == s;
    hide Dominant, Outside;
  }

  predicate IsOther(k: Kind) { !IsOperand(k) && k != LParen && k != RParen }

  lemma ScanStep(s: seq<Token>, n: nat, tot: int, at: int, none: bool, mn: int)
    requires Scanned(s, n, tot, at, none, mn) && n < |s|
    ensures IsOperand(s[n].kind) ==> Scanned(s, n + 1, tot, at, none, mn)
    ensures s[n].kind == LParen ==> Scanned(s, n + 1, tot + 1, at, none, mn)
    ensures s[n].kind == RParen ==> Scanned(s, n + 1, tot - 1, at, none, mn)
    ensures IsOther(s[n].kind) && tot != 0 ==> Scanned(s, n + 1, tot, at, none, mn)
    ensures IsOther(s[n].kind) && tot == 0 && (s[n].kind == Minus || s[n].kind == Star) ==> HasUnread(s)
    ensures IsOther(s[n].kind) && tot == 0 && !(s[n].kind == Minus || s[n].kind == Star) ==>
      if Rank(s[n].kind) <= mn then Scanned(s, n + 1, tot, n, false, Rank(s[n].kind))
      else Scanned(s, n + 1, tot, at, none, mn)
  {
    hide Found, Dominant, Rank, Outside, Depth, IsOperand;
    FoundStep(s, n, at, none, mn);
    OutsideIs(s, n);
  }

  lemma OutsideIs(s: seq<Token>, n: nat)
    requires n < |s|
    ensures Outside(s, n) <==> Depth(s, n) == 0 && !IsOperand(s[n].kind) && !s[n].kind.LParen? && !s[n].kind.RParen?
    ensures Depth(s, n + 1) == Depth(s, n) + (if s[n].kind.LParen? then 1 else if s[n].kind.RParen? then -1 else 0)
    ensures IsOperand(s[n].kind) ==> !s[n].kind.LParen? && !s[n].kind.RParen? && !s[n].kind.Minus? && !s[n].kind.Star?
  {
  }

  lemma FoundStep(s: seq<Token>, n: nat, at: int, none: bool, mn: int)
    requires n < |s| && Found(s[..n], at, none, mn)
    ensures Outside(s, n) && Rank(s[n].kind) <= mn ==> Found(s[..n + 1], n, false, Rank(s[n].kind))
    ensures !(Outside(s, n) && Rank(s[n].kind) <= mn) ==> Found(s[..n + 1], at, none, mn)
  {
    var t := s[..n + 1];
    assert t[..n] == s[..n] && t[n] == s[n];
    DepthOfPrefix(s, n + 1, n);
    RankBound(s[n].kind);
    DominantStep(t, n);
    hide Dominant, IsDominant, Rank;
  }

  /** One more token for dominant. */
  lemma DominantStep(t: seq<Token>, n: nat)
    requires |t| == n + 1
    ensures var p := Dominant(t[..n]);
      Dominant(t) == if Outside(t, n) && (p == -1 || Rank(t[n].kind) <= Rank(t[p].kind)) then n else p
  {
    hide Outside, IsDominant, Rank;
  }

  lemma TrapsAt(k: Kind, a: Int32, b: Int32)
    requires IsBinary(k)
    ensures ApplyBinary(k, a, b).None? <==> k == Slash && (b == 0 || (a == -0x8000_0000 && b == -1))
  {
    hide Wrap, Quotient;
  }

  class Evaluator {
    const tokens: array<Token>
    const nrToken: nat
    const env: Env

    ghost predicate Valid()
      reads tokens
    {
      nrToken <= tokens.Length && forall i :: 0 <= i < nrToken ==> Lexed(tokens[i])
    }

    constructor (lexed: seq<Token>, env: Env)
      requires forall i :: 0 <= i < |lexed| ==> Lexed(lexed[i])
      ensures Valid() && fresh(tokens) && tokens[..nrToken] == lexed && this.env == env
    {
      tokens := new Token[|lexed|](i requires 0 <= i < |lexed| => lexed[i]);
      nrToken := |lexed|;
      this.env := env;
    }

    /** The tokens from `p` to `q` inclusive. */
    ghost function Range(p: int, q: int): (s: seq<Token>)
      requires 0 <= p <= q + 1 <= tokens.Length
      reads tokens
      ensures |s| == q + 1 - p
    {
      tokens[p..q + 1]
    }

    /** The ranges eval recurses on. */
    lemma Subranges(p: int, op: int, q: int)
      requires 0 <= p <= op <= q < tokens.Length
      ensures var s := Range(p, q);
        && tokens[op] == s[op - p]
        && Range(p, op - 1) == s[..op - p] && Range(op + 1, q) == s[op - p + 1..]
        && (p < q ==> Range(p + 1, q - 1) == s[1..|s| - 1])
    {
    }

    /** process: decides in place which minus signs and stars are prefix operators. */
    method Process()
      requires Valid()
      modifies tokens
      ensures Valid() && tokens[..nrToken] == Processed(old(tokens[..nrToken]))
    {
      ghost var s := tokens[..nrToken];
      if nrToken == 0 {
        return;
      }
      for i := 0 to nrToken - 1
        invariant forall k :: 0 <= k < i ==> tokens[k] == ProcessedToken(s, k)
        invariant forall k :: i <= k < nrToken ==> tokens[k] == s[k]
      {
        if tokens[i].kind == Minus {
          if i == 0 || !EndsOperand(tokens[i - 1].kind) {
            tokens[i] := tokens[i].(kind := Neg);
          } else {
            tokens[i] := tokens[i].(kind := Sub);
          }
        } else if tokens[i].kind == Star {
          if i == 0 || !EndsOperand(tokens[i - 1].kind) {
            tokens[i] := tokens[i].(kind := Deref);
          } else {
            tokens[i] := tokens[i].(kind := Mul);
          }
        }
      }
    }

    /** check_parentheses: may the first and the last token be taken off as a pair? */
    method CheckParentheses(l: nat, r: nat) returns (ret: bool, error: bool)
      requires Valid() && l <= r < nrToken
      ensures error == Unbalanced(Range(l, r))
      ensures ret == (!error && Enclosed(Range(l, r)))
    {
      ghost var s := tokens[l..r + 1];
      var tot := 0;
      ret := tokens[l].text[0] == '(' && tokens[r].text[0] == ')';
      for i := l to r + 1
        invariant tot == Depth(s, i - l)
        invariant forall k :: 0 <= k <= i - l ==> Depth(s, k) >= 0
        invariant ret <==> (
          && s[0].kind.LParen? && s[r - l].kind.RParen?
          && forall k :: 0 <= k < i - l && k < r - l && s[k].kind.RParen? ==> Depth(s, k + 1) != 0)
      {
        assert tokens[i] == s[i - l] && Lexed(tokens[i]);
        if tokens[i].text[0] == '(' {
          tot := tot + 1;
        } else if tokens[i].text[0] == ')' {
          tot := tot - 1;
          if tot == 0 && i != r {
            ret := false;
          } else if tot < 0 {
            assert Depth(s, i - l + 1) < 0;
            return false, true;
          }
        }
      }
      error := false;
    }

    /** dominant: the operator of the range that is applied last, -1 when there is none; None where
        its assert on the token type fails. */
    method DominantOf(l: nat, r: nat) returns (p: Option<int>)
      requires Valid() && l <= r < nrToken
      ensures p.None? <==> HasUnread(Range(l, r))
      ensures p.Some? ==> p.value == if Dominant(Range(l, r)) < 0 then -1 else l + Dominant(Range(l, r))
    {
      hide Scanned, HasUnread, Dominant, Rank, Lexed, IsOperand;
      ghost var s := tokens[l..r + 1];
      var tot, mn, at := 0, 1010, -1;
      ScanStart(s, at - l);
      for i := l to r + 1
        invariant Scanned(s, i - l, tot, at - l, at == -1, mn)
        invariant at == -1 || l <= at < i
      {
        var t := tokens[i];
        assert t == s[i - l];
        ScanStep(s, i - l, tot, at - l, at == -1, mn);
        if IsOperand(t.kind) {
        } else if t.kind == LParen {
          tot := tot + 1;
        } else if t.kind == RParen {
          tot := tot - 1;
        } else if tot == 0 {
          if t.kind == Minus || t.kind == Star {
            return None;
          }
          var rank := Rank(t.kind);
          if rank <= mn {
            mn, at := rank, i;
          }
        }
      }
      ScanEnd(s, tot, at - l, at == -1, mn);
      p := Some(at);
    }

    /** val. */
    method Val(id: nat) returns (v: Option<Int32>)
      requires Valid() && id < nrToken
      ensures v == TokenValue(tokens[id], env)
    {
      match tokens[id].kind
      case Dec =>
        var x := DecimalValue(tokens[id].text);
        v := Some(x);
      case Hex =>
        var x := HexValue(if |tokens[id].text| >= 2 then tokens[id].text[2..] else "");
        v := Some(x);
      case Reg =>
        v := env.reg(tokens[id].text[1..]);
      case Str =>
        v := env.sym(tokens[id].text);
      case _ =>
        v := None;
    }

    /** eval, on the tokens `s` of the range. */
    method EvalRange(p: int, q: int, ghost s: seq<Token>) returns (r: Outcome)
      requires Valid() && 0 <= p <= q + 1 <= nrToken && s == Range(p, q)
      ensures r == Eval(s, env)
      decreases q + 1 - p, 1
    {
      hide Eval, PrefixResult, BinaryResult, TokenValue, ApplyPrefix, IsPrefix, Enclosed;
      hide Unbalanced, HasUnread, Dominant, Lexed, Range;
      if p > q {
        EvalSingle(s, env);
        return Done(0, true);
      }
      Subranges(p, p, q);
      if p == q {
        EvalSingle(s, env);
        var value := Val(p);
        return if value.Some? then Done(value.value, false) else Done(0, true);
      }
      EvalFails(s, env);
      var flag, error := CheckParentheses(p, q);
      if flag {
        EvalEnclosed(s, env);
        r := EvalRange(p + 1, q - 1, s[1..|s| - 1]);
        return;
      }
      if error {
        return Done(0, true);
      }
      var dominant := DominantOf(p, q);
      if dominant.None? {
        return Aborted;
      }
      var op := dominant.value;
      if op < 0 {
        // both sides are empty ranges, and the operator is whatever lies before the array
        r := Switch(env.before, 0, 0, true);
        SwitchIsNoOperator(env);
        return;
      }
      var kind := tokens[op].kind;
      Subranges(p, op, q);
      if op == p {
        EvalPrefix(s, env);
        PrefixCase(kind, Eval(s[1..], env), env);
        if !IsPrefix(kind) {
          return Done(0, true);
        }
        r := EvalRange(op + 1, q, s[1..]);
        if r.Done? {
          r := Done(ApplyPrefix(kind, r.value, env), r.error);
        }
        return;
      }
      EvalBinary(s, env, op - p);
      r := EvalSides(p, op, q, s[..op - p], s[op - p + 1..]);
    }

    /** Lines 241-253: both sides of a dominant operator, then the operator. */
    method EvalSides(p: int, op: int, q: int, ghost left: seq<Token>, ghost right: seq<Token>) returns (r: Outcome)
      requires Valid() && 0 <= p < op <= q < nrToken
      requires left == Range(p, op - 1) && right == Range(op + 1, q)
      ensures r == BinaryResult(tokens[op].kind, Eval(left, env), Eval(right, env))
      decreases q + 1 - p, 0
    {
      hide Eval, BinaryResult, Lexed, Range;
      BinaryCase(tokens[op].kind, Eval(left, env), Eval(right, env));
      var first := EvalRange(p, op - 1, left);
      if first.Aborted? {
        return Aborted;
      }
      var second := Done(0, true);
      if !first.error {
        second := EvalRange(op + 1, q, right);
        if second.Aborted? {
          return Aborted;
        }
      }
      r := Switch(tokens[op].kind, first.value, second.value, second.error);
    }

    /** Lines 243-253. */
    method Switch(kind: Kind, val1: Int32, val2: Int32, error: bool) returns (r: Outcome)
      ensures r == BinaryResult(kind, Done(val1, false), Done(val2, error))
      ensures kind !in {Plus, Sub, Mul, Slash, And, Or, Eq, Ne} ==> r == Done(0, true)
      ensures kind in {Plus, Sub, Mul, Slash, And, Or, Eq, Ne} ==>
        forall v: Int32 :: Gives(kind, val1, val2, v) <==> r == Done(v, error)
      ensures r == Aborted <==> kind == Slash && (val2 == 0 || (val1 == -0x8000_0000 && val2 == -1))
    {
      SwitchGives(kind, val1, val2, error);
      hide ApplyBinary, Gives;
      if !IsBinary(kind) {
        return Done(0, true);
      }
      TrapsAt(kind, val1, val2);
      var result := ApplyBinary(kind, val1, val2);
      r := if result.Some? then Done(result.value, error) else Aborted;
    }

    /** expr, after the lexer: process, then eval on everything; None when the emulator dies.  The
        success flag of the caller is cleared on an error and otherwise left alone, so a caller that
        set it before learns whether the tokens spell an expression of the grammar with a meaning, and
        then has that meaning. */
    method ExprValue(success0: bool) returns (r: Option<Int32>, success: bool)
      requires Valid() && FromLexer(tokens[..nrToken])
      modifies tokens
      ensures forall e, v: Int32 :: Expresses(e, old(tokens[..nrToken]), env, v) ==> r == Some(v) && success == success0
      ensures r.Some? && (forall e, v: Int32 :: !Expresses(e, old(tokens[..nrToken]), env, v)) ==>
        r == Some(0) && !success
      ensures r.None? ==> forall e, v: Int32 :: !Expresses(e, old(tokens[..nrToken]), env, v)
      ensures forall f: Form :: f.From(env) && f.Tokens() == old(tokens[..nrToken]) ==>
        success == success0 && forall v: Int32 :: f.Computes(env, v) <==> r == Some(v)
    {
      hide Expresses, Eval, Processed, FromLexer, Lexed, Form.From, Form.Tokens, Form.Computes;
      ghost var w := tokens[..nrToken];
      Process();
      var ans := EvalRange(0, nrToken - 1, Range(0, nrToken - 1));
      AnswerOf(w, env, ans);
      forall f: Form | f.From(env) && f.Tokens() == w
        ensures ans.Done? ==> !ans.error
        ensures forall v: Int32 :: f.Computes(env, v) <==> ans == Done(v, false)
      {
        AnswerOfForm(f, w, env, ans);
      }
      if ans.Aborted? {
        return None, success0;
      }
      if ans.error {
        return Some(0), false;
      }
      return Some(ans.value), success0;
    }
  }
}
