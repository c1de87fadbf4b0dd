/** The arithmetic that `eval(expr, {"__builtins__": {}})` is used for: numeric
    literals, `+ - * /`, unary `+` and `-`, and parentheses, with Python's
    precedence and left associativity. As in Python, the whole text is compiled
    first (any malformed text is a SyntaxError before anything is computed) and
    only then evaluated (a division by zero is a ZeroDivisionError, `Other` here). */
module Arithmetic {
  import opened Outcomes
  import opened PyText
  import opened Numerals

  datatype Token = Number(value: real) | Plus | Minus | Times | Divide | LParen | RParen

  datatype Op = Add | Sub | Mul | Div

  datatype Expr =
    | Literal(value: real)
    | Neg(operand: Expr)
    | Pos(operand: Expr)
    | Binary(op: Op, left: Expr, right: Expr)

  /** The whitespace Python's tokenizer skips between tokens of one logical line. */
  predicate IsBlank(c: char) {
    c == ' ' || c == '\t' || c == '\U{c}'
  }

  function OperatorToken(c: char): (r: Result<Token>)
    ensures r.Err? ==> r.error == SyntaxError
  {
    match c
    case '+' => Ok(Plus)
    case '-' => Ok(Minus)
    case '*' => Ok(Times)
    case '/' => Ok(Divide)
    case '(' => Ok(LParen)
    case ')' => Ok(RParen)
    case _ => Err(SyntaxError)
  }

  /** The token that starts `s` and its length. */
  function NextToken(s: string): (r: Result<(Token, nat)>)
    requires |s| > 0
    ensures r.Ok? ==> 0 < r.value.1 <= |s|
    ensures r.Err? ==> r.error == SyntaxError
  {
    if IsDigit(s[0]) || (s[0] == '.' && |s| > 1 && IsDigit(s[1])) then
      var lit :- NumberLiteral(s);
      Ok((Number(lit.0), lit.1))
    else
      var t :- OperatorToken(s[0]);
      Ok((t, 1))
  }

  /** Python's tokenizer, for the tokens of the arithmetic grammar; any other
      character (a letter, a quote, a comma, ...) is a SyntaxError. */
  function Tokenize(s: string): (r: Result<seq<Token>>)
    ensures r.Err? ==> r.error == SyntaxError
    decreases |s|
  {
    if s == [] then Ok([])
    else if IsBlank(s[0]) then Tokenize(s[1..])
    else
      var t :- NextToken(s);
      var rest :- Tokenize(s[t.1..]);
      Ok([t.0] + rest)
  }

  predicate AllBlank(s: string) {
    forall i :: 0 <= i < |s| ==> IsBlank(s[i])
  }

  /** Blanks alone are no tokens. */
  lemma {:induction false} TokenizeBlanks(s: string)
    requires AllBlank(s)
    ensures Tokenize(s) == Ok([])
    decreases |s|
  {
    if s != [] {
      assert IsBlank(s[0]);
      TokenizeBlanks(s[1..]);
    }
  }

  /** A numeral written by `str()` is one number token. */
  lemma TokenizeNumber(n: nat, rest: string, ts: seq<Token>)
    requires |NatToString(n)| <= MaxStrDigits
    requires rest == [] || (!IsDigit(rest[0]) && rest[0] != '.')
    requires Tokenize(rest) == Ok(ts)
    ensures Tokenize(NatToString(n) + rest) == Ok([Number(n as real)] + ts)
  {
    var ds := NatToString(n);
    var s := ds + rest;
    NumberLiteralOfNat(n, rest);
    assert s[0] == ds[0];
    assert NextToken(s) == Ok((Number(n as real), |ds|));
    assert s[|ds|..] == rest;
  }

  lemma OperatorNotNumber(c: char)
    requires OperatorToken(c).Ok?
    ensures !IsBlank(c) && !IsDigit(c) && c != '.'
  {
  }

  /** An operator or parenthesis is one token. */
  lemma TokenizeOperator(s: string, ts: seq<Token>)
    requires |s| > 0 && OperatorToken(s[0]).Ok?
    requires Tokenize(s[1..]) == Ok(ts)
    ensures Tokenize(s) == Ok([OperatorToken(s[0]).value] + ts)
  {
    OperatorNotNumber(s[0]);
    assert NextToken(s) == Ok((OperatorToken(s[0]).value, 1));
  }

  // ---------------------------------------------------------------------------
  // recursive descent:  expr := term (('+'|'-') term)*
  //                     term := factor (('*'|'/') factor)*
  //                     factor := ('+'|'-') factor | atom
  //                     atom := NUMBER | '(' expr ')'
  // Each parser returns the tokens it did not consume.

  function ParseExpr(ts: seq<Token>): (r: Result<(Expr, seq<Token>)>)
    ensures r.Ok? ==> |r.value.1| < |ts|
    ensures r.Err? ==> r.error == SyntaxError
    decreases |ts|, 3
  {
    var first :- ParseTerm(ts);
    ParseExprTail(first.0, first.1)
  }

  function ParseExprTail(acc: Expr, ts: seq<Token>): (r: Result<(Expr, seq<Token>)>)
    ensures r.Ok? ==> |r.value.1| <= |ts|
    ensures r.Err? ==> r.error == SyntaxError
    decreases |ts|, 3
  {
    if |ts| > 0 && (ts[0] == Plus || ts[0] == Minus) then
      var next :- ParseTerm(ts[1..]);
      ParseExprTail(Binary(if ts[0] == Plus then Add else Sub, acc, next.0), next.1)
    else Ok((acc, ts))
  }

  function ParseTerm(ts: seq<Token>): (r: Result<(Expr, seq<Token>)>)
    ensures r.Ok? ==> |r.value.1| < |ts|
    ensures r.Err? ==> r.error == SyntaxError
    decreases |ts|, 2
  {
    var first :- ParseFactor(ts);
    ParseTermTail(first.0, first.1)
  }

  function ParseTermTail(acc: Expr, ts: seq<Token>): (r: Result<(Expr, seq<Token>)>)
    ensures r.Ok? ==> |r.value.1| <= |ts|
    ensures r.Err? ==> r.error == SyntaxError
    decreases |ts|, 2
  {
    if |ts| > 0 && (ts[0] == Times || ts[0] == Divide) then
      var next :- ParseFactor(ts[1..]);
      ParseTermTail(Binary(if ts[0] == Times then Mul else Div, acc, next.0), next.1)
    else Ok((acc, ts))
  }

  function ParseFactor(ts: seq<Token>): (r: Result<(Expr, seq<Token>)>)
    ensures r.Ok? ==> |r.value.1| < |ts|
    ensures r.Err? ==> r.error == SyntaxError
    decreases |ts|, 1
  {
    if |ts| > 0 && (ts[0] == Plus || ts[0] == Minus) then
      var inner :- ParseFactor(ts[1..]);
      Ok((if ts[0] == Plus then Pos(inner.0) else Neg(inner.0), inner.1))
    else ParseAtom(ts)
  }

  function ParseAtom(ts: seq<Token>): (r: Result<(Expr, seq<Token>)>)
    ensures r.Ok? ==> |r.value.1| < |ts|
    ensures r.Err? ==> r.error == SyntaxError
    decreases |ts|, 0
  {
    if |ts| == 0 then Err(SyntaxError)
    else if ts[0].Number? then Ok((Literal(ts[0].value), ts[1..]))
    else if ts[0] == LParen then
      var inner :- ParseExpr(ts[1..]);
      if |inner.1| > 0 && inner.1[0] == RParen then Ok((inner.0, inner.1[1..]))
      else Err(SyntaxError)
    else Err(SyntaxError)
  }

  /** The value of an expression; dividing by zero raises. */
  function Eval(e: Expr): (r: Result<real>)
    ensures r.Err? ==> r.error == Other
  {
    match e
    case Literal(v) => Ok(v)
    case Neg(x) =>
      var v :- Eval(x);
      Ok(-v)
    case Pos(x) => Eval(x)
    case Binary(op, l, r) =>
      var a :- Eval(l);
      var b :- Eval(r);
      match op
      case Add => Ok(a + b)
      case Sub => Ok(a - b)
      case Mul => Ok(a * b)
      case Div => if b == 0.0 then Err(Other) else Ok(a / b)
  }

  /** `eval(src)` restricted to the arithmetic grammar. */
  function Evaluate(src: string): (r: Result<real>)
    ensures r.Err? ==> r.error == SyntaxError || r.error == Other
  {
    var ts :- Tokenize(src);
    var parsed :- ParseExpr(ts);
    if parsed.1 != [] then Err(SyntaxError) else Eval(parsed.0)
  }

  // ---------------------------------------------------------------------------
  // printing: the inverse of parsing

  function OpToken(op: Op): Token {
    match op
    case Add => Plus
    case Sub => Minus
    case Mul => Times
    case Div => Divide
  }

  /** The tokens of `e`, with every binary operation in parentheses. */
  function Show(e: Expr): seq<Token> {
    match e
    case Literal(v) => [Number(v)]
    case Neg(x) => [Minus] + Show(x)
    case Pos(x) => [Plus] + Show(x)
    case Binary(op, l, r) => [LParen] + Show(l) + [OpToken(op)] + Show(r) + [RParen]
  }

  /** The tokens of an expression form one factor, whatever follows them. */
  lemma {:induction false} ParseFactorShow(e: Expr, rest: seq<Token>)
    ensures ParseFactor(Show(e) + rest) == Ok((e, rest))
    decreases e, 2
  {
    match e
    case Literal(v) =>
      assert ([Number(v)] + rest)[1..] == rest;
    case Neg(x) =>
      assert ([Minus] + Show(x) + rest)[1..] == Show(x) + rest;
      ParseFactorShow(x, rest);
    case Pos(x) =>
      assert ([Plus] + Show(x) + rest)[1..] == Show(x) + rest;
      ParseFactorShow(x, rest);
    case Binary(op, l, r) =>
      ParseBinaryShow(op, l, r, rest);
  }

  lemma {:induction false} ParseBinaryShow(op: Op, l: Expr, r: Expr, rest: seq<Token>)
    ensures ParseFactor(Show(Binary(op, l, r)) + rest) == Ok((Binary(op, l, r), rest))
    decreases Binary(op, l, r), 1
  {
    var e := Binary(op, l, r);
    var tail := [RParen] + rest;
    var afterLeft := [OpToken(op)] + Show(r) + tail;
    assert Show(e) + rest == [LParen] + (Show(l) + afterLeft);
    if op == Add || op == Sub {
      ParseSumShow(op, l, r, tail);
    } else {
      ParseProductShow(op, l, r, tail);
    }
    ParseParenthesized(Show(l) + afterLeft, e, rest);
  }

  /** A parenthesised expression is one factor. */
  lemma ParseParenthesized(ts: seq<Token>, e: Expr, rest: seq<Token>)
    requires ParseExpr(ts) == Ok((e, [RParen] + rest))
    ensures ParseFactor([LParen] + ts) == Ok((e, rest))
  {
    assert ([LParen] + ts)[1..] == ts;
    assert ([RParen] + rest)[1..] == rest;
  }

  lemma {:induction false} ParseSumShow(op: Op, l: Expr, r: Expr, tail: seq<Token>)
    requires op == Add || op == Sub
    requires tail != [] && tail[0] == RParen
    ensures ParseExpr(Show(l) + ([OpToken(op)] + Show(r) + tail)) == Ok((Binary(op, l, r), tail))
    decreases Binary(op, l, r), 0
  {
    var e := Binary(op, l, r);
    var afterLeft := [OpToken(op)] + Show(r) + tail;
    assert afterLeft[1..] == Show(r) + tail;
    assert afterLeft[0] == OpToken(op);
    ParseTermShow(l, afterLeft);
    ParseTermShow(r, tail);
    assert ParseExprTail(e, tail) == Ok((e, tail));
    assert ParseExprTail(l, afterLeft) == Ok((e, tail));
  }

  lemma {:induction false} ParseProductShow(op: Op, l: Expr, r: Expr, tail: seq<Token>)
    requires op == Mul || op == Div
    requires tail != [] && tail[0] == RParen
    ensures ParseExpr(Show(l) + ([OpToken(op)] + Show(r) + tail)) == Ok((Binary(op, l, r), tail))
    decreases Binary(op, l, r), 0
  {
    var e := Binary(op, l, r);
    var afterLeft := [OpToken(op)] + Show(r) + tail;
    assert afterLeft[1..] == Show(r) + tail;
    assert afterLeft[0] == OpToken(op);
    ParseFactorShow(l, afterLeft);
    ParseFactorShow(r, tail);
    assert ParseTermTail(e, tail) == Ok((e, tail));
    assert ParseTermTail(l, afterLeft) == Ok((e, tail));
    assert ParseTerm(Show(l) + afterLeft) == Ok((e, tail));
  }

  /** ... and one term when no `*` or `/` follows them. */
  lemma {:induction false} ParseTermShow(e: Expr, rest: seq<Token>)
    requires rest == [] || (rest[0] != Times && rest[0] != Divide)
    ensures ParseTerm(Show(e) + rest) == Ok((e, rest))
    decreases e, 3
  {
    ParseFactorShow(e, rest);
  }

  /** Parsing the tokens `Show` prints gives the expression back. */
  lemma ParseShow(e: Expr)
    ensures ParseExpr(Show(e)) == Ok((e, []))
  {
    ParseTermShow(e, []);
    assert Show(e) + [] == Show(e);
  }

  /** A quotient is defined exactly when the divisor's value is not zero. */
  lemma EvalQuotient(l: Expr, r: Expr, x: real, y: real)
    requires Eval(l) == Ok(x) && Eval(r) == Ok(y)
    ensures Eval(Binary(Div, l, r)) == if y == 0.0 then Err(Other) else Ok(x / y)
  {
  }

  /** Two numbers around one operator, without parentheses, are that operation. */
  lemma {:induction false} ParseSingleOperation(op: Op, a: real, b: real)
    ensures ParseExpr([Number(a), OpToken(op), Number(b)]) == Ok((Binary(op, Literal(a), Literal(b)), []))
  {
    var t := OpToken(op);
    var ts := [Number(a), t, Number(b)];
    var e := Binary(op, Literal(a), Literal(b));
    assert Show(Literal(a)) + [t, Number(b)] == ts;
    assert Show(Literal(b)) + [] == [Number(b)];
    assert [t, Number(b)][1..] == [Number(b)];
    if op == Add || op == Sub {
      ParseTermShow(Literal(a), [t, Number(b)]);
      ParseTermShow(Literal(b), []);
      assert ParseExprTail(e, []) == Ok((e, []));
      assert ParseExprTail(Literal(a), [t, Number(b)]) == Ok((e, []));
    } else {
      ParseFactorShow(Literal(a), [t, Number(b)]);
      ParseFactorShow(Literal(b), []);
      assert ParseTermTail(e, []) == Ok((e, []));
      assert ParseTermTail(Literal(a), [t, Number(b)]) == Ok((e, []));
      assert ParseExprTail(e, []) == Ok((e, []));
    }
  }

  /** Text whose tokens are those of `e` evaluates to the value of `e`. */
  lemma EvaluateTokens(src: string, e: Expr)
    requires Tokenize(src) == Ok(Show(e))
    ensures Evaluate(src) == Eval(e)
  {
    ParseShow(e);
  }
}
