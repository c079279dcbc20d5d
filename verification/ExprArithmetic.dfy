/** What the operators of nemu/src/monitor/expr.c:211-254 compute and how they bind, stated on the
    numbers and on the operator kinds themselves, for the meaning of ExprEval and for every range of
    tokens. */
module ExprArithmetic {
  import opened Common
  import opened ExprTokens
  import opened ExprEval
  import opened ExprGrammar

  //// The operators

  /** 32-bit wrap-around. */
  predicate Congruent(v: Int32, n: int) { (v - n) % 0x1_0000_0000 == 0 }

  /** `v` is the quotient of `a` and `b`, truncated: what is left is smaller than `b` and has the
      sign of `a`.  Traps: a zero divisor, or -2^31 / -1. */
  predicate Divides(a: int, b: int, v: int) {
    var rem := a - v * b;
    && b != 0 && !(a == -0x8000_0000 && b == -1)
    && (-b < rem < b || b < rem < -b)
    && (rem == 0 || (rem < 0 <==> a < 0))
  }

  predicate IsFlag(v: Int32, b: bool) { v == (if b then 1 else 0) }

  /** `v` is the result of a binary operator, as the lexer or as process names it. */
  predicate Gives(k: Kind, a: Int32, b: Int32, v: Int32) {
    match k
    case Plus => Congruent(v, a + b)
    case Minus | Sub => Congruent(v, a - b)
    case Star | Mul => Congruent(v, a * b)
    case Slash => Divides(a, b, v)
    case And => IsFlag(v, a != 0 && b != 0)
    case Or => IsFlag(v, a != 0 || b != 0)
    case Eq => IsFlag(v, a == b)
    case Ne => IsFlag(v, a != b)
    case _ => false
  }

  /** The same for a prefix operator. */
  predicate PrefixGives(k: Kind, a: Int32, env: Env, v: Int32) {
    match k
    case Minus | Neg => Congruent(v, 0 - a)
    case Not => IsFlag(v, a == 0)
    case Star | Deref => v == env.mem(a)
    case _ => false
  }

  lemma WrapCongruent(v: Int32, n: int)
    ensures Congruent(v, n) <==> v == Wrap(n)
  {
  }

  lemma MagnitudeParts(a: int, b: int)
    requires b != 0
    ensures var q, r := Magnitude(a) / Magnitude(b), Magnitude(a) % Magnitude(b);
      Magnitude(a) == q * Magnitude(b) + r && 0 <= r < Magnitude(b) && 0 <= q <= Magnitude(a)
  {
    var q, r := Magnitude(a) / Magnitude(b), Magnitude(a) % Magnitude(b);
    assert q * Magnitude(b) >= q;
  }

  lemma NegatedProduct(q: int, b: int)
    ensures -q * b == -(q * b) && q * -b == -(q * b) && -q * -b == q * b
  {
  }

  lemma HalfAtMost(q: nat, m: nat)
    ensures m >= 2 ==> q * m >= q + q
  {
  }

  /** The truncated quotient is a 32-bit number and leaves a remainder of the right size and sign. */
  lemma QuotientDivides(a: Int32, b: Int32)
    requires b != 0 && !(a == -0x8000_0000 && b == -1)
    ensures -0x8000_0000 <= Quotient(a, b) < 0x8000_0000 && Divides(a, b, Quotient(a, b))
  {
    var q, r := Magnitude(a) / Magnitude(b), Magnitude(a) % Magnitude(b);
    MagnitudeParts(a, b);
    NegatedProduct(q, b);
    HalfAtMost(q, Magnitude(b));
  }

  /** Two remainders of one sign, both smaller than `b`, do not differ by a multiple of `b`. */
  lemma QuotientUnique(a: Int32, b: Int32, v: Int32, w: Int32)
    requires Divides(a, b, v) && Divides(a, b, w)
    ensures v == w
  {
    if v > w {
      MultipleGrows(v, w, b);
    } else if v < w {
      MultipleGrows(w, v, b);
    }
  }

  lemma MultipleGrows(v: int, w: int, b: int)
    requires v > w
    ensures if b >= 0 then v * b >= w * b + b else v * b <= w * b + b
  {
    var d := v - w - 1;
    assert v * b == w * b + d * b + b;
    assert if b >= 0 then d * b >= 0 else d * b <= 0;
  }

  /** Every binary operator computes what Gives says, and traps exactly where no number does. */
  lemma BinaryGives(k: Kind, a: Int32, b: Int32, v: Int32)
    requires IsBinary(k)
    ensures ApplyBinary(k, a, b) == Some(v) <==> Gives(k, a, b, v)
  {
    hide Quotient, Divides, Congruent, Wrap;
    match k
    case Slash =>
      DivisionGives(a, b, v);
    case _ =>
      WrapCongruent(v, a + b);
      WrapCongruent(v, a - b);
      WrapCongruent(v, a * b);
  }

  lemma DivisionGives(a: Int32, b: Int32, v: Int32)
    ensures ApplyBinary(Slash, a, b) == Some(v) <==> Divides(a, b, v)
  {
    hide Quotient;
    if b != 0 && !(a == -0x8000_0000 && b == -1) {
      QuotientDivides(a, b);
      WrapCongruent(Quotient(a, b), Quotient(a, b));
      if Divides(a, b, v) {
        QuotientUnique(a, b, v, Quotient(a, b));
      }
    }
  }

  /** The same for the three prefix operators. */
  lemma PrefixGivesIt(k: Kind, a: Int32, env: Env, v: Int32)
    requires IsPrefix(k)
    ensures ApplyPrefix(k, a, env) == v <==> PrefixGives(k, a, env, v)
  {
    WrapCongruent(v, 0 - a);
  }

  //// Numbers and names

  const DIGITS: string := "0123456789abcdef"
  const CAPITALS: string := "0123456789ABCDEF"

  /** A number as one writes it down, in decimal and in hexadecimal, without leading zeros. */
  function Decimal(n: nat): string {
    (if n < 10 then "" else Decimal(n / 10)) + [DIGITS[n % 10]]
  }

  function Hexadecimal(n: nat, digits: string): string
    requires |digits| == 16
  {
    (if n < 16 then "" else Hexadecimal(n / 16, digits)) + [digits[n % 16]]
  }

  lemma NumeralOfLast(s: string, c: char, base: nat, digit: char -> int)
    ensures Numeral("", base, digit) == 0
    ensures Numeral(s + [c], base, digit) == Numeral(s, base, digit) * base + digit(c)
  {
    assert (s + [c])[..|s|] == s;
  }

  lemma {:induction false} DecimalReads(n: nat)
    ensures Numeral(Decimal(n), 10, DecDigit) == n
  {
    hide Numeral;
    DigitsAre(n % 10);
    NumeralOfLast(if n < 10 then "" else Decimal(n / 10), DIGITS[n % 10], 10, DecDigit);
    if n >= 10 {
      DecimalReads(n / 10);
    }
  }

  lemma {:induction false} HexadecimalReads(n: nat, digits: string)
    requires digits == DIGITS || digits == CAPITALS
    ensures Numeral(Hexadecimal(n, digits), 16, HexDigit) == n
  {
    hide Numeral;
    DigitsAre(n % 16);
    NumeralOfLast(if n < 16 then "" else Hexadecimal(n / 16, digits), digits[n % 16], 16, HexDigit);
    if n >= 16 {
      HexadecimalReads(n / 16, digits);
    }
  }

  lemma DigitsAre(i: nat)
    ensures i < 10 ==> DecDigit(DIGITS[i]) == i
    ensures i < 16 ==> HexDigit(DIGITS[i]) == i && HexDigit(CAPITALS[i]) == i
  {
  }

  /** A number written in decimal, or in hexadecimal after 0x in either case, is read back modulo
      2^32. */
  lemma NumbersReadBack(n: nat, v: Int32, env: Env)
    ensures TokenValue(Token(Dec, Decimal(n)), env) == Some(v) <==> Congruent(v, n)
    ensures TokenValue(Token(Hex, "0x" + Hexadecimal(n, DIGITS)), env) == Some(v) <==> Congruent(v, n)
    ensures TokenValue(Token(Hex, "0X" + Hexadecimal(n, CAPITALS)), env) == Some(v) <==> Congruent(v, n)
  {
    hide Numeral, Decimal, Hexadecimal, DecDigit, HexDigit, Wrap, Congruent;
    WrapCongruent(v, n);
    DecimalReads(n);
    HexadecimalReads(n, DIGITS);
    HexadecimalReads(n, CAPITALS);
    assert ("0x" + Hexadecimal(n, DIGITS))[2..] == Hexadecimal(n, DIGITS);
    assert ("0X" + Hexadecimal(n, CAPITALS))[2..] == Hexadecimal(n, CAPITALS);
  }

  /** A register is looked up without its dollar sign, any other name as it stands. */
  lemma NamesAreLookedUp(name: string, env: Env)
    ensures TokenValue(Token(Reg, "$" + name), env) == env.reg(name)
    ensures TokenValue(Token(Str, name), env) == env.sym(name)
  {
    assert ("$" + name)[1..] == name;
  }

  //// The grammar, one level for each strength: && and ||, == and !=, + and -, * and /, one prefix
  //// operator, operands and parentheses

  predicate Primary(e: Expr)
    decreases e, 0
  {
    match e
    case Atom(t) => IsOperand(t.kind)
    case Paren(open, inner, close) => open.kind == LParen && close.kind == RParen && Logical(inner)
    case _ => false
  }

  predicate Prefixed(e: Expr)
    decreases e, 1
  {
    if e.Unary? then e.op.kind in {Not, Neg, Deref} && Primary(e.arg) else Primary(e)
  }

  predicate Product(e: Expr)
    decreases e, 2
  {
    if e.Binary? && e.op.kind in {Mul, Slash} then Product(e.left) && Prefixed(e.right) else Prefixed(e)
  }

  predicate Sum(e: Expr)
    decreases e, 3
  {
    if e.Binary? && e.op.kind in {Plus, Sub} then Sum(e.left) && Product(e.right) else Product(e)
  }

  predicate Equality(e: Expr)
    decreases e, 4
  {
    if e.Binary? && e.op.kind in {Eq, Ne} then Equality(e.left) && Sum(e.right) else Sum(e)
  }

  predicate Logical(e: Expr)
    decreases e, 5
  {
    if e.Binary? && e.op.kind in {And, Or} then Logical(e.left) && Equality(e.right) else Equality(e)
  }

  /** The levels are the grammar that eval and process implement. */
  lemma {:induction false} LevelsAreGrammar(e: Expr)
    ensures Primary(e) <==> Grammatical(e) && ExprRank(e) >= 5
    ensures Prefixed(e) <==> Grammatical(e) && ExprRank(e) >= 4
    ensures Product(e) <==> Grammatical(e) && ExprRank(e) >= 3
    ensures Sum(e) <==> Grammatical(e) && ExprRank(e) >= 2
    ensures Equality(e) <==> Grammatical(e) && ExprRank(e) >= 1
    ensures Logical(e) <==> Grammatical(e)
  {
    match e
    case Atom(t) =>
    case Paren(open, inner, close) =>
      LevelsAreGrammar(inner);
    case Unary(op, arg) =>
      LevelsAreGrammar(arg);
      RankUpTo5(arg);
    case Binary(left, op, right) =>
      LevelsAreGrammar(left);
      LevelsAreGrammar(right);
  }

  /** The value of an expression, operator by operator. */
  predicate Denotes(e: Expr, env: Env, v: Int32) {
    match e
    case Atom(t) => TokenValue(t, env) == Some(v)
    case Paren(_, inner, _) => Denotes(inner, env, v)
    case Unary(op, arg) => IsPrefix(op.kind) && exists a :: Denotes(arg, env, a) && PrefixGives(op.kind, a, env, v)
    case Binary(left, op, right) =>
      IsBinary(op.kind) && exists a, b :: Denotes(left, env, a) && Denotes(right, env, b) && Gives(op.kind, a, b, v)
  }

  lemma {:induction false} DenotesMeaning(e: Expr, env: Env, v: Int32)
    ensures Denotes(e, env, v) <==> Meaning(e, env) == Some(v)
  {
    hide Gives, PrefixGives, ApplyBinary, ApplyPrefix;
    match e
    case Atom(t) =>
    case Paren(_, inner, _) =>
      DenotesMeaning(inner, env, v);
    case Unary(op, arg) =>
      forall a: Int32 ensures Denotes(arg, env, a) <==> Meaning(arg, env) == Some(a) {
        DenotesMeaning(arg, env, a);
      }
      if IsPrefix(op.kind) && Meaning(arg, env).Some? {
        PrefixGivesIt(op.kind, Meaning(arg, env).value, env, v);
      }
    case Binary(left, op, right) =>
      forall a: Int32 ensures Denotes(left, env, a) <==> Meaning(left, env) == Some(a) {
        DenotesMeaning(left, env, a);
      }
      forall b: Int32 ensures Denotes(right, env, b) <==> Meaning(right, env) == Some(b) {
        DenotesMeaning(right, env, b);
      }
      if IsBinary(op.kind) && Meaning(left, env).Some? && Meaning(right, env).Some? {
        BinaryGives(op.kind, Meaning(left, env).value, Meaning(right, env).value, v);
      }
  }

  /** `w` spells an expression with the value `v`, by the levels and the operators alone. */
  predicate Expresses(e: Expr, w: seq<Token>, env: Env, v: Int32) {
    Logical(e) && Raw(Print(e)) == w && Denotes(e, env, v)
  }

  lemma ExpressesSpells(e: Expr, w: seq<Token>, env: Env, v: Int32)
    ensures Expresses(e, w, env, v) <==> Spells(e, w, env, v)
  {
    hide Logical, Grammatical, Denotes, Meaning, Raw, Print;
    LevelsAreGrammar(e);
    DenotesMeaning(e, env, v);
  }

  //// A tree determines the outcome

  /** Every name in the expression has a value. */
  predicate Resolves(e: Expr, env: Env) {
    match e
    case Atom(t) => TokenValue(t, env).Some?
    case Paren(_, inner, _) => Resolves(inner, env)
    case Unary(_, arg) => Resolves(arg, env)
    case Binary(left, _, right) => Resolves(left, env) && Resolves(right, env)
  }

  /** Where all names resolve, eval gives the meaning, and the emulator dies exactly on the
      expressions in which a division traps. */
  lemma {:induction false} EvalResolved(e: Expr, env: Env)
    requires Grammatical(e) && Resolves(e, env)
    ensures Eval(Print(e), env) == if Meaning(e, env).Some? then Done(Meaning(e, env).value, false) else Aborted
  {
    hide Eval, Balanced, AllRanked;
    match e
    case Atom(t) =>
      EvalSingle([t], env);
    case Paren(open, inner, close) =>
      EvalResolved(inner, env);
      PrintBalanced(inner);
      EvalOfParens(open, Print(inner), close, env);
    case Unary(op, arg) =>
      EvalResolved(arg, env);
      PrintBalanced(arg);
      PrintDominant(arg);
      EvalOfPrefix(op, Print(arg), env);
    case Binary(left, op, right) =>
      EvalResolved(left, env);
      EvalResolved(right, env);
      PrintBalanced(left);
      PrintBalanced(right);
      PrintDominant(left);
      PrintDominant(right);
      RankedLess(Print(left), ExprRank(left), Rank(op.kind));
      RankedLess(Print(right), ExprRank(right), Rank(op.kind) + 1);
      EvalOfBinary(Print(left), op, Print(right), env);
  }

  /** An expression of the grammar with spelling `w`, in which every name has a value. */
  predicate IsTree(e: Expr, w: seq<Token>, env: Env) {
    Grammatical(e) && Raw(Print(e)) == w && Resolves(e, env)
  }

  /** Lexer tokens that spell an expression in which every name resolves: success with exactly the
      value it denotes, otherwise a trap. */
  lemma OutcomeOfTree(e: Expr, w: seq<Token>, env: Env)
    requires IsTree(e, w, env)
    ensures var ans := Eval(Processed(w), env);
      ans == Aborted || (ans.Done? && !ans.error)
    ensures forall v: Int32 :: Denotes(e, env, v) <==> Eval(Processed(w), env) == Done(v, false)
  {
    hide Grammatical, Denotes, Meaning, Raw, Print, Eval, Processed, Resolves, WellPlaced;
    PrintPlaced(e);
    ProcessReads(Print(e));
    EvalResolved(e, env);
    forall v: Int32 ensures Denotes(e, env, v) <==> Meaning(e, env) == Some(v) {
      DenotesMeaning(e, env, v);
    }
  }

  //// Operands and at most two operators

  predicate RawBinary(k: Kind) { k in {Plus, Minus, Star, Slash, And, Or, Eq, Ne} }

  predicate RawPrefix(k: Kind) { k in {Not, Minus, Star} }

  /** Of two binary operators in a row the second is applied first exactly when it binds tighter:
      a product after a sum, a sum or product after a comparison, anything but a connective after a
      connective. */
  predicate SecondFirst(op1: Kind, op2: Kind) {
    || (op1 in {Plus, Minus} && op2 in {Star, Slash})
    || (op1 in {Eq, Ne} && op2 in {Plus, Minus, Star, Slash})
    || (op1 in {And, Or} && op2 in {Eq, Ne, Plus, Minus, Star, Slash})
  }

  /** Tokens from the lexer of one of the forms x, p x, x op y, p x op y, x op p y and
      x op1 y op2 z, in which every operand has a value. */
  datatype Form =
    | One(x: Token)
    | Prefix(p: Token, x: Token)
    | Two(x: Token, op: Token, y: Token)
    | PrefixThenTwo(p: Token, x: Token, op: Token, y: Token)
    | TwoThenPrefix(x: Token, op: Token, p: Token, y: Token)
    | Three(x: Token, op1: Token, y: Token, op2: Token, z: Token)
  {
    function Tokens(): seq<Token> {
      match this
      case One(x) => [x]
      case Prefix(p, x) => [p, x]
      case Two(x, op, y) => [x, op, y]
      case PrefixThenTwo(p, x, op, y) => [p, x, op, y]
      case TwoThenPrefix(x, op, p, y) => [x, op, p, y]
      case Three(x, op1, y, op2, z) => [x, op1, y, op2, z]
    }

    predicate From(env: Env) {
      match this
      case One(x) => Operand(x, env)
      case Prefix(p, x) => RawPrefix(p.kind) && Operand(x, env)
      case Two(x, op, y) => Operand(x, env) && RawBinary(op.kind) && Operand(y, env)
      case PrefixThenTwo(p, x, op, y) =>
        RawPrefix(p.kind) && Operand(x, env) && RawBinary(op.kind) && Operand(y, env)
      case TwoThenPrefix(x, op, p, y) =>
        Operand(x, env) && RawBinary(op.kind) && RawPrefix(p.kind) && Operand(y, env)
      case Three(x, op1, y, op2, z) =>
        Operand(x, env) && RawBinary(op1.kind) && Operand(y, env) && RawBinary(op2.kind) && Operand(z, env)
    }

    /** The value, step by step. */
    predicate Computes(env: Env, v: Int32)
      requires From(env)
    {
      match this
      case One(x) => v == Value(x, env)
      case Prefix(p, x) => PrefixGives(p.kind, Value(x, env), env, v)
      case Two(x, op, y) => Gives(op.kind, Value(x, env), Value(y, env), v)
      case PrefixThenTwo(p, x, op, y) =>
        exists m: Int32 :: PrefixGives(p.kind, Value(x, env), env, m) && Gives(op.kind, m, Value(y, env), v)
      case TwoThenPrefix(x, op, p, y) =>
        exists m: Int32 :: PrefixGives(p.kind, Value(y, env), env, m) && Gives(op.kind, Value(x, env), m, v)
      case Three(x, op1, y, op2, z) =>
        if SecondFirst(op1.kind, op2.kind) then
          exists m: Int32 :: Gives(op2.kind, Value(y, env), Value(z, env), m) && Gives(op1.kind, Value(x, env), m, v)
        else
          exists m: Int32 :: Gives(op1.kind, Value(x, env), Value(y, env), m) && Gives(op2.kind, m, Value(z, env), v)
    }

    /** The expression of the grammar with that spelling. */
    function Tree(): Expr {
      match this
      case One(x) => Atom(x)
      case Prefix(p, x) => Unary(AsPrefix(p), Atom(x))
      case Two(x, op, y) => Binary(Atom(x), AsBinary(op), Atom(y))
      case PrefixThenTwo(p, x, op, y) => Binary(Unary(AsPrefix(p), Atom(x)), AsBinary(op), Atom(y))
      case TwoThenPrefix(x, op, p, y) => Binary(Atom(x), AsBinary(op), Unary(AsPrefix(p), Atom(y)))
      case Three(x, op1, y, op2, z) =>
        if SecondFirst(op1.kind, op2.kind) then
          Binary(Atom(x), AsBinary(op1), Binary(Atom(y), AsBinary(op2), Atom(z)))
        else
          Binary(Binary(Atom(x), AsBinary(op1), Atom(y)), AsBinary(op2), Atom(z))
    }
  }

  predicate Operand(t: Token, env: Env) { IsOperand(t.kind) && TokenValue(t, env).Some? }

  function Value(t: Token, env: Env): Int32
    requires Operand(t, env)
  {
    TokenValue(t, env).value
  }

  function AsPrefix(t: Token): Token {
    t.(kind := if t.kind == Minus then Neg else if t.kind == Star then Deref else t.kind)
  }

  function AsBinary(t: Token): Token {
    t.(kind := if t.kind == Minus then Sub else if t.kind == Star then Mul else t.kind)
  }

  /** The table of precedences says the same as the ranks of dominant. */
  lemma SecondFirstRanks(op1: Token, op2: Token)
    requires RawBinary(op1.kind) && RawBinary(op2.kind)
    ensures SecondFirst(op1.kind, op2.kind) <==> Rank(AsBinary(op2).kind) > Rank(AsBinary(op1).kind)
    ensures 0 <= Rank(AsBinary(op1).kind) <= 3
  {
  }

  lemma OperandTree(x: Token, env: Env)
    requires Operand(x, env)
    ensures IsTree(Atom(x), [x], env) && ExprRank(Atom(x)) == 5
    ensures forall v: Int32 :: Denotes(Atom(x), env, v) <==> v == Value(x, env)
  {
  }

  lemma PrefixTree(p: Token, x: Token, env: Env)
    requires RawPrefix(p.kind) && Operand(x, env)
    ensures IsTree(Unary(AsPrefix(p), Atom(x)), [p, x], env) && ExprRank(Unary(AsPrefix(p), Atom(x))) == 4
  {
    OperandTree(x, env);
  }

  lemma PrefixDenotes(p: Token, x: Token, env: Env, v: Int32)
    requires RawPrefix(p.kind) && Operand(x, env)
    ensures Denotes(Unary(AsPrefix(p), Atom(x)), env, v) <==> PrefixGives(p.kind, Value(x, env), env, v)
  {
    hide Congruent, IsFlag, TokenValue;
    var k := AsPrefix(p).kind;
    assert IsPrefix(k) && (PrefixGives(k, Value(x, env), env, v) <==> PrefixGives(p.kind, Value(x, env), env, v));
    assert Denotes(Atom(x), env, Value(x, env));
  }

  lemma BinaryTree(left: Expr, l: seq<Token>, op: Token, right: Expr, r: seq<Token>, env: Env)
    requires RawBinary(op.kind) && IsTree(left, l, env) && IsTree(right, r, env)
    requires ExprRank(left) >= Rank(AsBinary(op).kind) && ExprRank(right) > Rank(AsBinary(op).kind)
    ensures IsTree(Binary(left, AsBinary(op), right), l + [op] + r, env)
    ensures ExprRank(Binary(left, AsBinary(op), right)) == Rank(AsBinary(op).kind)
  {
    hide Rank;
    var s := Print(Binary(left, AsBinary(op), right));
    assert Raw(s) == l + [op] + r;
  }

  lemma BinaryDenotes(left: Expr, op: Token, right: Expr, env: Env, v: Int32)
    requires RawBinary(op.kind)
    ensures Denotes(Binary(left, AsBinary(op), right), env, v) <==>
      exists a, b: Int32 :: Denotes(left, env, a) && Denotes(right, env, b) && Gives(op.kind, a, b, v)
  {
    forall a: Int32, b: Int32
      ensures Gives(op.kind, a, b, v) <==> Gives(AsBinary(op).kind, a, b, v)
    {
      AsBinaryGives(op, a, b, v);
    }
    AsBinaryGives(op, 0, 0, v);
    hide Gives, AsBinary;
  }

  lemma AsBinaryGives(op: Token, a: Int32, b: Int32, v: Int32)
    requires RawBinary(op.kind)
    ensures IsBinary(AsBinary(op).kind)
    ensures Gives(op.kind, a, b, v) <==> Gives(AsBinary(op).kind, a, b, v)
  {
    hide Congruent, Divides, IsFlag;
  }

  lemma TreeOf(f: Form, env: Env)
    requires f.From(env)
    ensures IsTree(f.Tree(), f.Tokens(), env)
  {
    hide IsTree, Operand, RawPrefix, RawBinary, Rank, AsPrefix, AsBinary, SecondFirst, ExprRank;
    match f
    case One(x) =>
      OperandTree(x, env);
    case Prefix(p, x) =>
      PrefixTree(p, x, env);
    case Two(x, op, y) =>
      TwoTree(x, op, y, env);
    case PrefixThenTwo(p, x, op, y) =>
      PrefixTree(p, x, env);
      OperandTree(y, env);
      SecondFirstRanks(op, op);
      BinaryTree(Unary(AsPrefix(p), Atom(x)), [p, x], op, Atom(y), [y], env);
      assert [p, x] + [op] + [y] == f.Tokens();
    case TwoThenPrefix(x, op, p, y) =>
      OperandTree(x, env);
      PrefixTree(p, y, env);
      SecondFirstRanks(op, op);
      BinaryTree(Atom(x), [x], op, Unary(AsPrefix(p), Atom(y)), [p, y], env);
      assert [x] + [op] + [p, y] == f.Tokens();
    case Three(x, op1, y, op2, z) =>
      ThreeTree(x, op1, y, op2, z, env);
  }

  lemma TwoTree(x: Token, op: Token, y: Token, env: Env)
    requires Two(x, op, y).From(env)
    ensures IsTree(Two(x, op, y).Tree(), [x, op, y], env)
    ensures ExprRank(Two(x, op, y).Tree()) == Rank(AsBinary(op).kind)
  {
    hide IsTree, Operand, RawPrefix, RawBinary, Rank, AsPrefix, AsBinary, SecondFirst, ExprRank;
    OperandTree(x, env);
    OperandTree(y, env);
    SecondFirstRanks(op, op);
    BinaryTree(Atom(x), [x], op, Atom(y), [y], env);
    assert [x] + [op] + [y] == [x, op, y];
  }

  lemma ThreeTree(x: Token, op1: Token, y: Token, op2: Token, z: Token, env: Env)
    requires Three(x, op1, y, op2, z).From(env)
    ensures IsTree(Three(x, op1, y, op2, z).Tree(), [x, op1, y, op2, z], env)
  {
    hide IsTree, Operand, RawPrefix, RawBinary, Rank, AsPrefix, AsBinary, SecondFirst, ExprRank;
    SecondFirstRanks(op1, op2);
    SecondFirstRanks(op2, op1);
    OperandTree(x, env);
    OperandTree(z, env);
    TwoTree(x, op1, y, env);
    TwoTree(y, op2, z, env);
    if SecondFirst(op1.kind, op2.kind) {
      BinaryTree(Atom(x), [x], op1, Two(y, op2, z).Tree(), [y, op2, z], env);
      assert [x] + [op1] + [y, op2, z] == [x, op1, y, op2, z];
    } else {
      BinaryTree(Two(x, op1, y).Tree(), [x, op1, y], op2, Atom(z), [z], env);
      assert [x, op1, y] + [op2] + [z] == [x, op1, y, op2, z];
    }
  }

  lemma TwoDenotes(x: Token, op: Token, y: Token, env: Env, v: Int32)
    requires Two(x, op, y).From(env)
    ensures Denotes(Two(x, op, y).Tree(), env, v) <==> Gives(op.kind, Value(x, env), Value(y, env), v)
  {
    hide Gives, RawBinary, AsBinary, TokenValue;
    BinaryDenotes(Atom(x), op, Atom(y), env, v);
    assert Denotes(Atom(x), env, Value(x, env)) && Denotes(Atom(y), env, Value(y, env));
  }

  /** Operator by operator, without the tree. */
  lemma TreeDenotes(f: Form, env: Env, v: Int32)
    requires f.From(env)
    ensures Denotes(f.Tree(), env, v) <==> f.Computes(env, v)
  {
    hide Denotes, Gives, PrefixGives, Operand, RawPrefix, RawBinary, AsPrefix, AsBinary, SecondFirst;
    match f
    case One(x) =>
      OperandTree(x, env);
    case Prefix(p, x) =>
      PrefixDenotes(p, x, env, v);
    case Two(x, op, y) =>
      TwoDenotes(x, op, y, env, v);
    case PrefixThenTwo(p, x, op, y) =>
      OperandTree(y, env);
      BinaryDenotes(Unary(AsPrefix(p), Atom(x)), op, Atom(y), env, v);
      forall m: Int32
        ensures Denotes(Unary(AsPrefix(p), Atom(x)), env, m) <==> PrefixGives(p.kind, Value(x, env), env, m)
      {
        PrefixDenotes(p, x, env, m);
      }
    case TwoThenPrefix(x, op, p, y) =>
      OperandTree(x, env);
      BinaryDenotes(Atom(x), op, Unary(AsPrefix(p), Atom(y)), env, v);
      forall m: Int32
        ensures Denotes(Unary(AsPrefix(p), Atom(y)), env, m) <==> PrefixGives(p.kind, Value(y, env), env, m)
      {
        PrefixDenotes(p, y, env, m);
      }
    case Three(x, op1, y, op2, z) =>
      ThreeDenotes(x, op1, y, op2, z, env, v);
  }

  lemma ThreeDenotes(x: Token, op1: Token, y: Token, op2: Token, z: Token, env: Env, v: Int32)
    requires Three(x, op1, y, op2, z).From(env)
    ensures Denotes(Three(x, op1, y, op2, z).Tree(), env, v) <==> Three(x, op1, y, op2, z).Computes(env, v)
  {
    hide Denotes, Gives, Operand, RawBinary, AsBinary, SecondFirst;
    OperandTree(x, env);
    OperandTree(z, env);
    forall m: Int32
      ensures Denotes(Two(x, op1, y).Tree(), env, m) <==> Gives(op1.kind, Value(x, env), Value(y, env), m)
    {
      TwoDenotes(x, op1, y, env, m);
    }
    forall m: Int32
      ensures Denotes(Two(y, op2, z).Tree(), env, m) <==> Gives(op2.kind, Value(y, env), Value(z, env), m)
    {
      TwoDenotes(y, op2, z, env, m);
    }
    BinaryDenotes(Atom(x), op1, Two(y, op2, z).Tree(), env, v);
    BinaryDenotes(Two(x, op1, y).Tree(), op2, Atom(z), env, v);
  }

  /** process and eval on these forms: each operator at its precedence gives the number it stands
      for, and where there is no such number a division traps. */
  lemma FormOutcome(f: Form, env: Env)
    requires f.From(env)
    ensures forall v: Int32 :: f.Computes(env, v) <==> Eval(Processed(f.Tokens()), env) == Done(v, false)
    ensures Eval(Processed(f.Tokens()), env) == Aborted || exists v: Int32 :: f.Computes(env, v)
  {
    hide *;
    TreeOf(f, env);
    OutcomeOfTree(f.Tree(), f.Tokens(), env);
    forall v: Int32 ensures Denotes(f.Tree(), env, v) <==> f.Computes(env, v) {
      TreeDenotes(f, env, v);
    }
    assert Eval(Processed(f.Tokens()), env) == Aborted ||
      f.Computes(env, Eval(Processed(f.Tokens()), env).value);
  }
}
