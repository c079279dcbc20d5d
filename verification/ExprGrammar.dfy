/** eval accepts exactly the expressions of the grammar, and process prepares exactly what eval
    needs (nemu/src/monitor/expr.c:123-134 and 211-254). */
module ExprGrammar {
  import opened Common
  import opened ExprTokens
  import opened ExprEval

  //// What eval accepts is grammatical

  /** The strength of an expression that is not an atom or parenthesised is that of its dominant
      operator. */
  lemma RankOfDominant(e: Expr)
    requires Grammatical(e) && ExprRank(e) < 5
    ensures Dominant(Print(e)) >= 0 && Rank(Print(e)[Dominant(Print(e))].kind) == ExprRank(e)
    ensures Outside(Print(e), Dominant(Print(e)))
  {
    PrintDominant(e);
    match e
    case Unary(op, arg) => DominantIs(Print(e), 0);
    case Binary(left, op, right) => DominantIs(Print(e), |Print(left)|);
    case _ =>
  }

  /** The part before the dominant operator binds at least as strongly as it. */
  lemma LeftRank(s: seq<Token>, p: nat, left: Expr)
    requires IsDominant(s, p) && 0 < p && Grammatical(left) && Print(left) == s[..p]
    requires IsOperator(s[p].kind)
    ensures ExprRank(left) >= Rank(s[p].kind)
  {
    if ExprRank(left) < 5 {
      RankOfDominant(left);
      DepthPrefix(s, p);
      assert Outside(s, Dominant(Print(left)));
    }
    RankBound(s[p].kind);
  }

  /** Outside parentheses after an operator that is. */
  lemma OutsideAfter(s: seq<Token>, p: nat, j: nat)
    requires p < |s| && Outside(s, p) && IsOperator(s[p].kind) && p + 1 + j < |s|
    ensures Outside(s, p + 1 + j) <==> Outside(s[p + 1..], j)
  {
    var l := s[..p + 1];
    assert l + s[p + 1..] == s;
    DepthPrefix(s, p + 1);
    assert Depth(l, p + 1) == 0;
    OutsideConcat(l, s[p + 1..], p + 1 + j);
  }

  /** The part after it binds more strongly. */
  lemma RightRank(s: seq<Token>, p: nat, right: Expr)
    requires IsDominant(s, p) && Grammatical(right) && Print(right) == s[p + 1..]
    requires IsOperator(s[p].kind)
    ensures ExprRank(right) > Rank(s[p].kind)
  {
    hide Outside, Rank, ExprRank, Grammatical, Print, Dominant, IsOperator;
    if ExprRank(right) < 5 {
      RankOfDominant(right);
      var j := Dominant(Print(right));
      OutsideAfter(s, p, j);
      assert s[p + 1 + j] == Print(right)[j];
    }
    RankBound(s[p].kind);
  }

  predicate Succeeds(s: seq<Token>, env: Env, v: Int32) { Eval(s, env) == Done(v, false) }

  /** Success of eval comes from success on the pieces. */
  lemma SucceedsOnPieces(s: seq<Token>, env: Env, v: Int32)
    requires Succeeds(s, env, v)
    ensures s != []
    ensures |s| == 1 ==> TokenValue(s[0], env) == Some(v)
    ensures |s| > 1 && Enclosed(s) ==> Succeeds(s[1..|s| - 1], env, v)
    ensures |s| > 1 && !Enclosed(s) ==> Dominant(s) >= 0
    ensures |s| > 1 && !Enclosed(s) && Dominant(s) == 0 ==>
      exists a :: Succeeds(s[1..], env, a) && IsPrefix(s[0].kind) && ApplyPrefix(s[0].kind, a, env) == v
    ensures |s| > 1 && !Enclosed(s) && Dominant(s) > 0 ==>
      exists a, b :: Succeeds(s[..Dominant(s)], env, a) && Succeeds(s[Dominant(s) + 1..], env, b)
        && IsBinary(s[Dominant(s)].kind) && ApplyBinary(s[Dominant(s)].kind, a, b) == Some(v)
  {
    hide Eval, Unbalanced, HasUnread, Enclosed, Dominant, IsDominant, Outside, TokenValue, ApplyBinary, ApplyPrefix;
    if |s| <= 1 {
      EvalSingle(s, env);
    } else {
      EvalFails(s, env);
      if Enclosed(s) {
        EvalEnclosed(s, env);
      } else if Dominant(s) == 0 {
        EvalPrefix(s, env);
        assert Succeeds(s[1..], env, Eval(s[1..], env).value);
      } else {
        var op := Dominant(s);
        EvalBinary(s, env, op);
        assert Succeeds(s[..op], env, Eval(s[..op], env).value);
        assert Succeeds(s[op + 1..], env, Eval(s[op + 1..], env).value);
      }
    }
  }

  /** `e` is an expression of the grammar, spelled `s`, with meaning `v`. */
  predicate Parses(e: Expr, s: seq<Token>, env: Env, v: Int32) {
    Grammatical(e) && Print(e) == s && Meaning(e, env) == Some(v)
  }

  lemma ParenParses(s: seq<Token>, inner: Expr, env: Env, v: Int32)
    requires |s| > 1 && Enclosed(s) && Parses(inner, s[1..|s| - 1], env, v)
    ensures Parses(Paren(s[0], inner, s[|s| - 1]), s, env, v)
  {
    hide Depth;
    assert [s[0]] + s[1..|s| - 1] + [s[|s| - 1]] == s;
  }

  lemma PrefixParses(s: seq<Token>, arg: Expr, env: Env, a: Int32)
    requires |s| > 1 && IsDominant(s, 0) && IsPrefix(s[0].kind) && Parses(arg, s[1..], env, a)
    ensures Parses(Unary(s[0], arg), s, env, ApplyPrefix(s[0].kind, a, env))
  {
    hide *;
    ParsesMeans(arg, s[1..], env, a);
    PrefixFacts(s[0].kind);
    RightRank(s, 0, arg);
    RankUpTo5(arg);
    assert [s[0]] + s[1..] == s;
    UnaryParses(s[0], arg, s[1..], env, a);
  }

  lemma UnaryParses(op: Token, arg: Expr, t: seq<Token>, env: Env, a: Int32)
    requires IsPrefix(op.kind) && Parses(arg, t, env, a) && ExprRank(arg) == 5
    ensures Parses(Unary(op, arg), [op] + t, env, ApplyPrefix(op.kind, a, env))
  {
    hide ApplyPrefix, ExprRank, IsPrefix;
  }

  lemma BinaryParses(s: seq<Token>, p: nat, left: Expr, right: Expr, env: Env, a: Int32, b: Int32, v: Int32)
    requires 0 < p && IsDominant(s, p) && IsBinary(s[p].kind)
    requires Parses(left, s[..p], env, a) && Parses(right, s[p + 1..], env, b)
    requires ApplyBinary(s[p].kind, a, b) == Some(v)
    ensures Parses(Binary(left, s[p], right), s, env, v)
  {
    hide *;
    DominantInside(s, p);
    ParsesMeans(left, s[..p], env, a);
    ParsesMeans(right, s[p + 1..], env, b);
    BinaryFacts(s[p].kind);
    LeftRank(s, p, left);
    RightRank(s, p, right);
    assert s[..p] + [s[p]] + s[p + 1..] == s;
    PartsParse(s[..p], left, s[p], s[p + 1..], right, env, a, b, v);
  }

  lemma DominantInside(s: seq<Token>, p: nat)
    requires IsDominant(s, p)
    ensures p < |s|
  {
  }

  lemma ParsesMeans(e: Expr, s: seq<Token>, env: Env, v: Int32)
    requires Parses(e, s, env, v)
    ensures Grammatical(e) && Print(e) == s
  {
  }

  lemma PartsParse(l: seq<Token>, left: Expr, op: Token, r: seq<Token>, right: Expr,
                   env: Env, a: Int32, b: Int32, v: Int32)
    requires IsBinary(op.kind) && Parses(left, l, env, a) && Parses(right, r, env, b)
    requires ExprRank(left) >= Rank(op.kind) && ExprRank(right) > Rank(op.kind)
    requires ApplyBinary(op.kind, a, b) == Some(v)
    ensures Parses(Binary(left, op, right), l + [op] + r, env, v)
  {
    hide ApplyBinary, ExprRank, Rank, IsBinary;
  }

  lemma {:induction false} Accepted(s: seq<Token>, env: Env, v: Int32) returns (e: Expr)
    requires Succeeds(s, env, v)
    ensures Parses(e, s, env, v)
    decreases |s|
  {
    hide *;
    SucceedsOnPieces(s, env, v);
    if |s| == 1 {
      e := Atom(s[0]);
      AtomParses(s, env, v);
    } else {
      DominantFound(s);
      if Enclosed(s) {
        var inner := Accepted(s[1..|s| - 1], env, v);
        e := Paren(s[0], inner, s[|s| - 1]);
        ParenParses(s, inner, env, v);
      } else if Dominant(s) == 0 {
        var a :| Succeeds(s[1..], env, a) && IsPrefix(s[0].kind) && ApplyPrefix(s[0].kind, a, env) == v;
        var arg := Accepted(s[1..], env, a);
        e := Unary(s[0], arg);
        PrefixParses(s, arg, env, a);
      } else {
        var p := Dominant(s);
        var a, b :| Succeeds(s[..p], env, a) && Succeeds(s[p + 1..], env, b)
          && IsBinary(s[p].kind) && ApplyBinary(s[p].kind, a, b) == Some(v);
        var left := Accepted(s[..p], env, a);
        var right := Accepted(s[p + 1..], env, b);
        e := Binary(left, s[p], right);
        BinaryParses(s, p, left, right, env, a, b, v);
      }
    }
  }

  lemma AtomParses(s: seq<Token>, env: Env, v: Int32)
    requires |s| == 1 && TokenValue(s[0], env) == Some(v)
    ensures Parses(Atom(s[0]), s, env, v)
  {
  }

  lemma RankUpTo5(e: Expr)
    ensures ExprRank(e) <= 5
  {
    hide Grammatical;
  }

  /** eval returns a value without error exactly on the token sequences the grammar generates, and
      the value is the meaning; in particular the grammar is unambiguous in meaning. */
  lemma EvalIffGrammar(s: seq<Token>, env: Env, v: Int32)
    ensures Eval(s, env) == Done(v, false) <==> exists e :: Parses(e, s, env, v)
  {
    if Eval(s, env) == Done(v, false) {
      var e := Accepted(s, env, v);
    }
    if exists e :: Parses(e, s, env, v) {
      var e :| Parses(e, s, env, v);
      EvalPrint(e, env);
    }
  }

  //// process

  /** Before a prefix operator there is nothing an operand could end with. */
  predicate PrefixPosition(s: seq<Token>, i: nat)
    requires i < |s|
  {
    i == 0 || !EndsOperand(s[i - 1].kind)
  }

  /** The reading process gives to the i-th token; the last one it leaves alone. */
  function ProcessedToken(s: seq<Token>, i: nat): Token
    requires i < |s|
  {
    if i + 1 < |s| && s[i].kind.Minus? then s[i].(kind := if PrefixPosition(s, i) then Neg else Sub)
    else if i + 1 < |s| && s[i].kind.Star? then s[i].(kind := if PrefixPosition(s, i) then Deref else Mul)
    else s[i]
  }

  function Processed(s: seq<Token>): (r: seq<Token>)
    ensures |r| == |s|
  {
    seq(|s|, i requires 0 <= i < |s| => ProcessedToken(s, i))
  }

  /** The spelling the lexer sees. */
  function RawKind(k: Kind): Kind {
    match k
    case Neg | Sub => Minus
    case Deref | Mul => Star
    case _ => k
  }

  function Raw(s: seq<Token>): (r: seq<Token>)
    ensures |r| == |s|
  {
    seq(|s|, i requires 0 <= i < |s| => s[i].(kind := RawKind(s[i].kind)))
  }

  /** Tokens as the lexer makes them. */
  predicate FromLexer(s: seq<Token>) {
    forall i :: 0 <= i < |s| ==> s[i].kind == RawKind(s[i].kind)
  }

  /** Prefix operators stand where no operand ends, binary ones where one does. */
  predicate WellPlaced(s: seq<Token>) {
    && s != [] && EndsOperand(s[|s| - 1].kind)
    && forall i :: 0 <= i < |s| ==> PlacedAt(s, i)
  }

  predicate PlacedAt(s: seq<Token>, i: nat)
    requires i < |s|
  {
    && (IsPrefix(s[i].kind) ==> PrefixPosition(s, i))
    && (IsBinary(s[i].kind) ==> !PrefixPosition(s, i))
    && !s[i].kind.Minus? && !s[i].kind.Star?
  }

  /** A well-placed sequence after tokens that end no operand, and before what may follow one. */
  lemma PlacedAfter(s: seq<Token>, t: seq<Token>)
    requires forall i :: 0 <= i < |s| ==> PlacedAt(s, i)
    requires WellPlaced(t) && s != [] && !EndsOperand(s[|s| - 1].kind)
    ensures WellPlaced(s + t)
  {
    hide IsPrefix, IsBinary, EndsOperand;
    var u := s + t;
    forall i | 0 <= i < |u|
      ensures PlacedAt(u, i)
    {
      if i < |s| {
        assert PlacedAt(s, i);
      } else {
        assert PlacedAt(t, i - |s|) && u[i] == t[i - |s|] && (i > |s| ==> u[i - 1] == t[i - |s| - 1]);
      }
    }
  }

  lemma PlacedThen(s: seq<Token>, t: Token)
    requires WellPlaced(s) && !t.kind.Minus? && !t.kind.Star? && !IsPrefix(t.kind)
    ensures forall i :: 0 <= i < |s| + 1 ==> PlacedAt(s + [t], i)
  {
    hide IsPrefix, IsBinary, EndsOperand;
    forall i | 0 <= i < |s| + 1
      ensures PlacedAt(s + [t], i)
    {
      if i < |s| {
        assert PlacedAt(s, i);
      }
    }
  }

  lemma SinglePlaced(t: Token)
    requires !t.kind.Minus? && !t.kind.Star? && !IsBinary(t.kind)
    ensures forall i :: 0 <= i < 1 ==> PlacedAt([t], i)
  {
  }

  /** In a printed expression every operator stands where process reads it right. */
  lemma {:induction false} PrintPlaced(e: Expr)
    requires Grammatical(e)
    ensures WellPlaced(Print(e))
  {
    match e
    case Atom(t) =>
      SinglePlaced(t);
    case Paren(open, inner, close) =>
      PrintPlaced(inner);
      SinglePlaced(open);
      hide WellPlaced;
      PlacedAfter([open], Print(inner));
      PlacedThen([open] + Print(inner), close);
      EndsWell([open] + Print(inner) + [close]);
    case Unary(op, arg) =>
      PrintPlaced(arg);
      SinglePlaced(op);
      hide WellPlaced;
      PlacedAfter([op], Print(arg));
    case Binary(left, op, right) =>
      PrintPlaced(left);
      PrintPlaced(right);
      hide WellPlaced;
      PlacedThen(Print(left), op);
      PlacedAfter(Print(left) + [op], Print(right));
  }

  lemma EndsWell(s: seq<Token>)
    requires s != [] && EndsOperand(s[|s| - 1].kind) && forall i :: 0 <= i < |s| ==> PlacedAt(s, i)
    ensures WellPlaced(s)
  {
  }

  /** process undoes the lexer's spelling of a well-placed sequence. */
  lemma ProcessReads(s: seq<Token>)
    requires WellPlaced(s)
    ensures Processed(Raw(s)) == s
  {
    forall i | 0 <= i < |s|
      ensures ProcessedToken(Raw(s), i) == s[i]
    {
      assert PlacedAt(s, i);
      assert Raw(s)[i].kind == RawKind(s[i].kind);
      if i > 0 {
        assert Raw(s)[i - 1].kind == RawKind(s[i - 1].kind);
        assert EndsOperand(RawKind(s[i - 1].kind)) <==> EndsOperand(s[i - 1].kind);
      }
    }
  }

  /** And spelling what process read gives the lexer's tokens back. */
  lemma ProcessKeepsSpelling(w: seq<Token>)
    requires FromLexer(w)
    ensures Raw(Processed(w)) == w
  {
  }

  /** The whole evaluator, from lexer tokens to value: process followed by eval succeeds with `v`
      exactly when the tokens spell an expression of the grammar whose meaning is `v`. */
  lemma ExprIffGrammar(w: seq<Token>, env: Env, v: Int32)
    requires FromLexer(w)
    ensures Eval(Processed(w), env) == Done(v, false) <==> exists e :: Spells(e, w, env, v)
  {
    var s := Processed(w);
    EvalIffGrammar(s, env, v);
    hide Eval, Grammatical, Print, Meaning, Processed, Raw;
    if Eval(s, env) == Done(v, false) {
      var e :| Parses(e, s, env, v);
      ProcessKeepsSpelling(w);
      assert Spells(e, w, env, v);
    }
    if exists e :: Spells(e, w, env, v) {
      var e :| Spells(e, w, env, v);
      PrintPlaced(e);
      ProcessReads(Print(e));
      assert Parses(e, s, env, v);
    }
  }

  predicate Spells(e: Expr, w: seq<Token>, env: Env, v: Int32) {
    Grammatical(e) && Raw(Print(e)) == w && Meaning(e, env) == Some(v)
  }
}
