/** Tokens of the monitor's expressions, the values of single tokens, and what the loops of
    nemu/src/monitor/expr.c compute over a range of tokens. */
module ExprTokens {
  import opened Common

  //// 32-bit signed integers

  type Int32 = n: int | -0x8000_0000 <= n < 0x8000_0000

  function Wrap(n: int): Int32 {
    (n + 0x8000_0000) % 0x1_0000_0000 - 0x8000_0000
  }

  //// Tokens

  /** Minus and Star are what the lexer produces; process decides between the two readings. */
  datatype Kind =
    | Dec | Hex | Reg | Str
    | LParen | RParen
    | Plus | Slash | Not | Eq | Ne | And | Or
    | Minus | Sub | Neg
    | Star | Mul | Deref

  datatype Token = Token(kind: Kind, text: string)

  /** What the lexer guarantees: check_parentheses looks at the first character, the rest of the
      code at the kind. */
  predicate Lexed(t: Token) {
    && t.text != ""
    && (t.kind.LParen? <==> t.text[0] == '(') && (t.kind.RParen? <==> t.text[0] == ')')
  }

  predicate IsOperand(k: Kind) { k.Dec? || k.Hex? || k.Reg? || k.Str? }
  predicate EndsOperand(k: Kind) { IsOperand(k) || k.RParen? }
  predicate IsPrefix(k: Kind) { k.Not? || k.Neg? || k.Deref? }
  predicate IsBinary(k: Kind) { k.And? || k.Or? || k.Eq? || k.Ne? || k.Plus? || k.Sub? || k.Mul? || k.Slash? }
  predicate IsOperator(k: Kind) { IsPrefix(k) || IsBinary(k) }

  /** Binding strength: the weakest operator is applied last. */
  function Rank(k: Kind): int {
    match k
    case And | Or => 0
    case Eq | Ne => 1
    case Plus | Sub => 2
    case Mul | Slash => 3
    case _ => 4
  }

  //// Values of single tokens

  /** Registers, symbols and memory, which the monitor reads but the evaluator does not change; and
      the kind that the word before the token array looks like, which it reads when there is no
      dominant operator. */
  datatype Env = Env(reg: string -> Option<Int32>, sym: string -> Option<Int32>, mem: Int32 -> Int32, before: Kind)

  function DecDigit(c: char): int { c as int - '0' as int }

  function HexDigit(c: char): int {
    if '0' <= c <= '9' then c as int - '0' as int
    else if 'A' <= c <= 'Z' then c as int - 'A' as int + 10
    else c as int - 'a' as int + 10
  }

  /** The number written in a base, without any bound. */
  function Numeral(s: string, base: nat, digit: char -> int): int {
    if s == "" then 0 else Numeral(s[..|s| - 1], base, digit) * base + digit(s[|s| - 1])
  }

  function TokenValue(t: Token, env: Env): Option<Int32> {
    match t.kind
    case Dec => Some(Wrap(Numeral(t.text, 10, DecDigit)))
    case Hex => Some(Wrap(Numeral(if |t.text| >= 2 then t.text[2..] else "", 16, HexDigit)))
    case Reg => env.reg(if t.text != "" then t.text[1..] else "")
    case Str => env.sym(t.text)
    case _ => None
  }

  /** Wrapping at every digit is wrapping at the end. */
  lemma WrapDigit(x: int, base: nat, d: int)
    ensures Wrap(Wrap(x) * base + d) == Wrap(x * base + d)
  {
    var q := (x + 0x8000_0000) / 0x1_0000_0000;
    assert Wrap(x) == x - q * 0x1_0000_0000;
    Distribute(x, q, base);
    WrapMultiple(x * base + d, q * base);
  }

  lemma Distribute(x: int, q: int, base: nat)
    ensures (x - q * 0x1_0000_0000) * base == x * base - (q * base) * 0x1_0000_0000
  {
  }

  lemma WrapMultiple(n: int, k: int)
    ensures Wrap(n - k * 0x1_0000_0000) == Wrap(n)
  {
  }

  method DecimalValue(s: string) returns (x: Int32)
    ensures x == Wrap(Numeral(s, 10, DecDigit))
  {
    x := 0;
    for i := 0 to |s|
      invariant x == Wrap(Numeral(s[..i], 10, DecDigit))
    {
      assert s[..i + 1][..i] == s[..i];
      WrapDigit(Numeral(s[..i], 10, DecDigit), 10, DecDigit(s[i]));
      x := Wrap(x * 10 + (s[i] as int - '0' as int));
    }
    assert s[..|s|] == s;
  }

  method HexValue(s: string) returns (x: Int32)
    ensures x == Wrap(Numeral(s, 16, HexDigit))
  {
    x := 0;
    for i := 0 to |s|
      invariant x == Wrap(Numeral(s[..i], 16, HexDigit))
    {
      assert s[..i + 1][..i] == s[..i];
      WrapDigit(Numeral(s[..i], 16, HexDigit), 16, HexDigit(s[i]));
      WrapDigit(Numeral(s[..i], 16, HexDigit), 16, 0);
      WrapSum(x * 16, HexDigit(s[i]));
      x := Wrap(x * 16);
      if '0' <= s[i] <= '9' {
        x := Wrap(x + (s[i] as int - '0' as int));
      } else if 'A' <= s[i] <= 'Z' {
        x := Wrap(x + (s[i] as int - 'A' as int + 10));
      } else {
        x := Wrap(x + (s[i] as int - 'a' as int + 10));
      }
    }
    assert s[..|s|] == s;
  }

  lemma WrapSum(n: int, d: int)
    ensures Wrap(Wrap(n) + d) == Wrap(n + d)
  {
    WrapDigit(n, 1, d);
  }

  //// Parentheses

  /** Open minus closed among the first `i` tokens. */
  function Depth(s: seq<Token>, i: nat): int
    requires i <= |s|
  {
    if i == 0 then 0 else
      Depth(s, i - 1) + (if s[i - 1].kind.LParen? then 1 else if s[i - 1].kind.RParen? then -1 else 0)
  }

  /** A closing parenthesis without its opening one. */
  predicate Unbalanced(s: seq<Token>) {
    exists i :: 0 <= i <= |s| && Depth(s, i) < 0
  }

  /** The range begins with an opening and ends with a closing parenthesis, and no closing one before
      the last brings the depth back to zero. */
  predicate Enclosed(s: seq<Token>) {
    && s != [] && s[0].kind.LParen? && s[|s| - 1].kind.RParen?
    && forall i :: 0 <= i < |s| - 1 && s[i].kind.RParen? ==> Depth(s, i + 1) != 0
  }

  //// The dominant operator

  /** A token outside every parenthesis that dominant has to rank. */
  predicate Outside(s: seq<Token>, i: nat)
    requires i < |s|
  {
    Depth(s, i) == 0 && !IsOperand(s[i].kind) && !s[i].kind.LParen? && !s[i].kind.RParen?
  }

  /** Minus and Star, which process only leaves at the very end, trip dominant's assert. */
  predicate HasUnread(s: seq<Token>) {
    exists i :: 0 <= i < |s| && Outside(s, i) && (s[i].kind.Minus? || s[i].kind.Star?)
  }

  /** The operator applied last: the rightmost of the weakest ones outside parentheses. */
  predicate IsDominant(s: seq<Token>, p: nat) {
    && p < |s| && Outside(s, p)
    && forall i :: 0 <= i < |s| && Outside(s, i) ==>
         Rank(s[i].kind) >= Rank(s[p].kind) && (i > p ==> Rank(s[i].kind) > Rank(s[p].kind))
  }

  function Dominant(s: seq<Token>): (p: int)
    ensures -1 <= p < |s|
  {
    if s == [] then -1 else
      var n := |s| - 1;
      var p := Dominant(s[..n]);
      if Outside(s, n) && (p == -1 || Rank(s[n].kind) <= Rank(s[p].kind)) then n else p
  }

  /** Scanning finds the dominant operator whenever there is any operator outside parentheses. */
  lemma {:induction false} DominantFound(s: seq<Token>)
    ensures Dominant(s) >= 0 ==> IsDominant(s, Dominant(s))
    ensures Dominant(s) == -1 ==> forall i :: 0 <= i < |s| ==> !Outside(s, i)
    decreases |s|
  {
    if s != [] {
      var n := |s| - 1;
      DominantFound(s[..n]);
      DepthPrefix(s, n);
      hide Depth, Rank;
    }
  }

  /** A depth does not depend on what follows. */
  lemma {:induction false} DepthOfPrefix(s: seq<Token>, n: nat, i: nat)
    requires i <= n <= |s|
    ensures Depth(s[..n], i) == Depth(s, i)
    decreases i
  {
    if i > 0 {
      DepthOfPrefix(s, n, i - 1);
    }
  }

  lemma DepthPrefix(s: seq<Token>, n: nat)
    requires n <= |s|
    ensures forall i :: 0 <= i <= n ==> Depth(s[..n], i) == Depth(s, i)
    ensures forall i :: 0 <= i < n ==> (Outside(s[..n], i) <==> Outside(s, i))
  {
    forall i | 0 <= i <= n
      ensures Depth(s[..n], i) == Depth(s, i)
    {
      DepthOfPrefix(s, n, i);
    }
  }

  lemma DominantUnique(s: seq<Token>, p: nat, q: nat)
    requires IsDominant(s, p) && IsDominant(s, q)
    ensures p == q
  {
  }
}
