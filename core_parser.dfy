/** The parsers behind every prompt and command-line argument: each one turns a
    string (plus a few reference values) into a value, or fails with the exception
    class the caller would see. */
module CoreParser {
  import opened Outcomes
  import opened PyText
  import opened Numerals
  import opened Arithmetic
  import opened Calendar
  import opened Dicts
  import Get

  // ---------------------------------------------------------------------------
  // regular-expression helpers

  /** What a pattern ending in `$` has to match: `$` matches at the end of the
      string and also just before a newline that ends it. For a pattern whose last
      element cannot match a newline, `re.match(p + "$", s)` succeeds exactly when
      `p` matches all of `LineBody(s)`. */
  function LineBody(s: string): (b: string)
    ensures b == s || (s == b + "\n")
  {
    if |s| > 0 && s[|s| - 1] == '\n' then s[..|s| - 1] else s
  }

  predicate AllLetters(s: string) {
    forall i :: 0 <= i < |s| ==> IsAsciiLetter(s[i])
  }

  predicate AllWordChars(s: string) {
    forall i :: 0 <= i < |s| ==> IsWordChar(s[i])
  }

  /** The regular-expression `.` matches every character but a newline. */
  predicate NoNewline(s: string) {
    forall i :: 0 <= i < |s| ==> s[i] != '\n'
  }

  // ---------------------------------------------------------------------------
  // parse_arithmetic_operation

  /** The test `value < lower_bound` that follows the evaluation. */
  function Bounded(v: Result<real>, lowerBound: real): (r: Result<real>)
    ensures r.Ok? ==> r.value >= lowerBound
    ensures v.Err? ==> r == v
  {
    match v
    case Err(e) => Err(e)
    case Ok(x) => if x < lowerBound then Err(ValueError) else Ok(x)
  }

  /** `parse_arithmetic_operation(expr, lower_bound)`: an expression after a leading
      `+` or `=`, a decimal otherwise, and at least `lowerBound` in both cases. The
      word-character guard tests only the first character, which is `+` or `=`
      there, so it never rejects anything. */
  function ParseArithmeticOperation(expr: string, lowerBound: real): (r: Result<real>)
    ensures r.Ok? ==> r.value >= lowerBound
    ensures r.Err? ==> r.error in {SyntaxError, ValueError, Other}
    ensures r.Err? && r.error == Other ==> expr == [] || expr[0] == '+' || expr[0] == '='
  {
    if |expr| == 0 then Err(Other)
    else if expr[0] == '+' || expr[0] == '=' then
      if IsWordChar(expr[0]) then Err(SyntaxError) else Bounded(Evaluate(expr[1..]), lowerBound)
    else Bounded(ParseFloat(expr), lowerBound)
  }

  /** After `+` or `=`, the rest of the text is evaluated and then bounded. */
  lemma ArithmeticEvaluates(c: char, src: string, lowerBound: real)
    requires c == '+' || c == '='
    ensures ParseArithmeticOperation([c] + src, lowerBound) == Bounded(Evaluate(src), lowerBound)
  {
    var expr := [c] + src;
    assert expr[0] == c && expr[1..] == src;
    assert !IsWordChar(c);
  }

  /** After `+` or `=`, text whose tokens are those of an expression gives its value,
      a ZeroDivisionError, or a ValueError when the value is below the bound. */
  lemma ArithmeticExpression(c: char, src: string, e: Expr, lowerBound: real)
    requires c == '+' || c == '='
    requires Tokenize(src) == Ok(Show(e))
    ensures ParseArithmeticOperation([c] + src, lowerBound) == Bounded(Eval(e), lowerBound)
  {
    EvaluateTokens(src, e);
    ArithmeticEvaluates(c, src, lowerBound);
  }

  /** Without a leading `+` or `=`, the text is read by `float()` and bounded. */
  lemma ArithmeticOfDecimal(expr: string, lowerBound: real)
    requires |expr| > 0 && expr[0] != '+' && expr[0] != '='
    ensures ParseArithmeticOperation(expr, lowerBound) == Bounded(ParseFloat(expr), lowerBound)
  {
  }

  /** `str(i)` of an integer, negative ones included, is read as that integer and
      not as an expression. */
  lemma ArithmeticDecimal(i: int, lowerBound: real)
    ensures ParseArithmeticOperation(IntToString(i), lowerBound) ==
      if (i as real) < lowerBound then Err(ValueError) else Ok(i as real)
  {
    var s := IntToString(i);
    if i >= 0 {
      assert IsDigit(NatToString(i)[0]);
    }
    assert s[0] == '-' || IsDigit(s[0]);
    ArithmeticOfDecimal(s, lowerBound);
    ParseFloatIntToString(i);
  }

  /** The numeral `str(n)`, then blanks, is one token. */
  lemma TokenizeNumeral(n: nat, tail: string)
    requires |NatToString(n)| <= MaxStrDigits
    requires AllBlank(tail)
    ensures Tokenize(NatToString(n) + tail) == Ok([Number(n as real)])
  {
    TokenizeBlanks(tail);
    if tail != [] {
      assert IsBlank(tail[0]);
    }
    TokenizeNumber(n, tail, []);
    assert [Number(n as real)] + [] == [Number(n as real)];
  }

  /** An operator and then the numeral `str(n)` are two tokens. */
  lemma TokenizeOperatorNumeral(op: Op, c: char, n: nat, tail: string)
    requires |NatToString(n)| <= MaxStrDigits
    requires OperatorToken(c) == Ok(OpToken(op)) && AllBlank(tail)
    ensures Tokenize([c] + NatToString(n) + tail) == Ok([OpToken(op), Number(n as real)])
  {
    var s := [c] + NatToString(n) + tail;
    assert s[0] == c && s[1..] == NatToString(n) + tail;
    TokenizeNumeral(n, tail);
    TokenizeOperator(s, [Number(n as real)]);
    assert [OpToken(op)] + [Number(n as real)] == [OpToken(op), Number(n as real)];
  }

  /** The text `a` op `b` of two numerals and an operator, then blanks, is three tokens. */
  lemma TokenizeBinaryNumerals(a: nat, op: Op, c: char, b: nat, tail: string)
    requires |NatToString(a)| <= MaxStrDigits && |NatToString(b)| <= MaxStrDigits
    requires OperatorToken(c) == Ok(OpToken(op)) && AllBlank(tail)
    ensures Tokenize(NatToString(a) + [c] + NatToString(b) + tail)
         == Ok([Number(a as real), OpToken(op), Number(b as real)])
  {
    var s := [c] + NatToString(b) + tail;
    TokenizeOperatorNumeral(op, c, b, tail);
    assert s[0] == c;
    OperatorNotNumber(c);
    TokenizeNumber(a, s, [OpToken(op), Number(b as real)]);
    Regroup(NatToString(a), [c], NatToString(b), tail);
    assert [Number(a as real)] + [OpToken(op), Number(b as real)] == [Number(a as real), OpToken(op), Number(b as real)];
  }

  /** The text `a` op `b` of two numerals and an operator, then blanks, evaluates
      to that operation. */
  lemma EvaluateBinaryNumerals(a: nat, op: Op, c: char, b: nat, tail: string)
    requires |NatToString(a)| <= MaxStrDigits && |NatToString(b)| <= MaxStrDigits
    requires OperatorToken(c) == Ok(OpToken(op)) && AllBlank(tail)
    ensures Evaluate(NatToString(a) + [c] + NatToString(b) + tail) == Eval(Binary(op, Literal(a as real), Literal(b as real)))
  {
    TokenizeBinaryNumerals(a, op, c, b, tail);
    ParseSingleOperation(op, a as real, b as real);
  }

  /** `+a op b` or `=a op b` for two numerals, then blanks, is the value of that operation. */
  lemma ArithmeticOperationOfNumerals(lead: char, a: nat, op: Op, c: char, b: nat, tail: string, lowerBound: real)
    requires |NatToString(a)| <= MaxStrDigits && |NatToString(b)| <= MaxStrDigits
    requires lead == '+' || lead == '='
    requires OperatorToken(c) == Ok(OpToken(op)) && AllBlank(tail)
    ensures ParseArithmeticOperation([lead] + NatToString(a) + [c] + NatToString(b) + tail, lowerBound)
         == Bounded(Eval(Binary(op, Literal(a as real), Literal(b as real))), lowerBound)
  {
    EvaluateBinaryNumerals(a, op, c, b, tail);
    ArithmeticEvaluates(lead, NatToString(a) + [c] + NatToString(b) + tail, lowerBound);
    Regroup5([lead], NatToString(a), [c], NatToString(b), tail);
  }

  /** `=1+1` is 2. */
  lemma ArithmeticExampleSum()
    ensures ParseArithmeticOperation("=1+1", 0.0) == Ok(2.0)
  {
    ArithmeticOperationOfNumerals('=', 1, Add, '+', 1, "", 0.0);
    assert NatToString(1) == "1";
    assert "=1+1" == ['='] + NatToString(1) + ['+'] + NatToString(1) + "";
  }

  /** `=2+2` is below a lower bound of 10. */
  lemma ArithmeticExampleBelowBound()
    ensures ParseArithmeticOperation("=2+2", 10.0) == Err(ValueError)
  {
    ArithmeticOperationOfNumerals('=', 2, Add, '+', 2, "", 10.0);
    assert NatToString(2) == "2";
    assert "=2+2" == ['='] + NatToString(2) + ['+'] + NatToString(2) + "";
  }

  /** A quotient of two numerals: ZeroDivisionError when the divisor is zero. */
  lemma ArithmeticQuotient(lead: char, a: nat, b: nat, tail: string, lowerBound: real)
    requires |NatToString(a)| <= MaxStrDigits && |NatToString(b)| <= MaxStrDigits
    requires lead == '+' || lead == '='
    requires AllBlank(tail)
    ensures ParseArithmeticOperation([lead] + NatToString(a) + ['/'] + NatToString(b) + tail, lowerBound)
         == if b == 0 then Err(Other) else Bounded(Ok(a as real / b as real), lowerBound)
  {
    assert OperatorToken('/') == Ok(OpToken(Div));
    ArithmeticOperationOfNumerals(lead, a, Div, '/', b, tail, lowerBound);
    BoundedQuotient(a, b, lowerBound);
  }

  lemma BoundedQuotient(a: nat, b: nat, lowerBound: real)
    ensures Bounded(Eval(Binary(Div, Literal(a as real), Literal(b as real))), lowerBound)
         == if b == 0 then Err(Other) else Bounded(Ok(a as real / b as real), lowerBound)
  {
    EvalQuotient(Literal(a as real), Literal(b as real), a as real, b as real);
  }

  /** An integer literal of more than `MaxStrDigits` digits does not compile: the
      whole expression is a SyntaxError, whatever follows the literal. */
  lemma ArithmeticLongLiteral(lead: char, n: nat, tail: string, lowerBound: real)
    requires lead == '+' || lead == '='
    requires |NatToString(n)| > MaxStrDigits
    requires tail == [] || (!IsDigit(tail[0]) && tail[0] != '.')
    ensures ParseArithmeticOperation([lead] + NatToString(n) + tail, lowerBound) == Err(SyntaxError)
  {
    var ds := NatToString(n);
    var src := ds + tail;
    DigitPrefixOfDigits(ds, tail);
    assert src[0] == ds[0] && IsDigit(src[0]);
    assert |ds| == |src| || src[|ds|] == tail[0];
    assert NumberLiteral(src) == Err(SyntaxError);
    assert Tokenize(src) == Err(SyntaxError);
    ArithmeticEvaluates(lead, src, lowerBound);
    assert [lead] + ds + tail == [lead] + src;
  }

  /** `10` and `-5` are decimals; the empty string fails on `expr[0]`. */
  lemma ArithmeticExampleDecimals()
    ensures ParseArithmeticOperation("10", 0.0) == Ok(10.0)
    ensures ParseArithmeticOperation("-5", -10.0) == Ok(-5.0)
    ensures ParseArithmeticOperation("", 0.0) == Err(Other)
  {
    ArithmeticDecimal(10, 0.0);
    ArithmeticDecimal(-5, -10.0);
    assert IntToString(10) == "10";
    assert IntToString(-5) == "-5";
  }

  // ---------------------------------------------------------------------------
  // parse_currency

  /** A currency code as the rest of the program stores it: three upper-case ASCII letters. */
  predicate IsCurrencyCode(c: string) {
    |c| == 3 && forall i :: 0 <= i < 3 ==> 'A' <= c[i] <= 'Z'
  }

  /** `parse_currency`, as written: `^[a-zA-Z]{3}$` also matches three letters and
      a newline, and the newline is kept in the upper-cased result. */
  function ParseCurrency(currency: string): (r: Result<string>)
    ensures r.Ok? ==> r.value == Upper(currency)
    ensures r.Err? ==> r.error == ValueError
  {
    var body := LineBody(currency);
    if |body| == 3 && AllLetters(body) then Ok(Upper(currency)) else Err(ValueError)
  }

  /** `parse_currency` as intended: exactly three ASCII letters, upper-cased. */
  function ParseCurrencyStrict(currency: string): (r: Result<string>)
    ensures r.Ok? <==> |currency| == 3 && AllLetters(currency)
    ensures r.Ok? ==> IsCurrencyCode(r.value) && r.value == Upper(currency)
    ensures r.Err? ==> r.error == ValueError
  {
    if |currency| == 3 && AllLetters(currency) then
      assert forall i :: 0 <= i < 3 ==> 'A' <= Upper(currency)[i] <= 'Z' by {
        forall i | 0 <= i < 3 ensures 'A' <= Upper(currency)[i] <= 'Z' {
          assert Upper(currency)[i] == UpperChar(currency[i]);
        }
      }
      Ok(Upper(currency))
    else Err(ValueError)
  }

  /** Upper-casing keeps letters letters and leaves the newline alone. */
  lemma UpperLineBody(s: string)
    ensures LineBody(Upper(s)) == Upper(LineBody(s))
    ensures AllLetters(LineBody(s)) ==> AllLetters(Upper(LineBody(s)))
  {
    var u := Upper(s);
    assert |s| > 0 ==> u[|s| - 1] == UpperChar(s[|s| - 1]);
    if |s| > 0 && s[|s| - 1] == '\n' {
      assert u[..|s| - 1] == Upper(s[..|s| - 1]);
    }
    var b := LineBody(s);
    forall i | 0 <= i < |b| && IsAsciiLetter(b[i]) ensures IsAsciiLetter(Upper(b)[i]) {
      assert Upper(b)[i] == UpperChar(b[i]);
    }
  }

  /** A parsed currency parses to itself, trailing newline and all. */
  lemma CurrencyIdempotent(s: string)
    requires ParseCurrency(s).Ok?
    ensures ParseCurrency(ParseCurrency(s).value) == ParseCurrency(s)
  {
    UpperLineBody(s);
    UpperIsUpper(s);
  }

  /** The corrected parser returns a code that it accepts unchanged. */
  lemma CurrencyStrictIdempotent(s: string)
    requires ParseCurrencyStrict(s).Ok?
    ensures ParseCurrencyStrict(ParseCurrencyStrict(s).value) == ParseCurrencyStrict(s)
  {
    var c := ParseCurrencyStrict(s).value;
    assert AllLetters(c) by {
      forall i | 0 <= i < |c| ensures IsAsciiLetter(c[i]) {
        assert 'A' <= c[i] <= 'Z';
      }
    }
    UpperIsUpper(s);
  }

  /** Every code is accepted as it is, and case does not matter. */
  lemma CurrencyStrictCodes(c: string, s: string)
    requires IsCurrencyCode(c) && Upper(s) == c
    ensures ParseCurrencyStrict(c) == Ok(c)
    ensures ParseCurrencyStrict(s) == Ok(c)
  {
    assert AllLetters(c) by {
      forall i | 0 <= i < |c| ensures IsAsciiLetter(c[i]) {
        assert 'A' <= c[i] <= 'Z';
      }
    }
    UpperOfUpper(c);
    assert AllLetters(s) by {
      forall i | 0 <= i < |s| ensures IsAsciiLetter(s[i]) {
        assert Upper(s)[i] == UpperChar(s[i]);
      }
    }
  }

  /** The two agree on every string that does not end in a newline. */
  lemma CurrencyAgrees(s: string)
    requires s == [] || s[|s| - 1] != '\n'
    ensures ParseCurrency(s) == ParseCurrencyStrict(s)
  {
  }

  /** "usd" followed by a newline is accepted, and the result is not a code. */
  lemma CurrencyTrailingNewline(s: string)
    requires s == "usd\n"
    ensures ParseCurrency(s) == Ok("USD\n") && !IsCurrencyCode("USD\n")
    ensures ParseCurrencyStrict(s) == Err(ValueError)
  {
    assert LineBody(s) == "usd";
    assert AllLetters("usd");
    assert Upper(s) == "USD\n";
  }

  // ---------------------------------------------------------------------------
  // parse_double_currency

  /** `parse_double_currency(s, lower_bound)`: `(.*)(\w{3})$` puts the last three
      word characters in the currency and everything before them in the operation;
      any failure, of the match or of either parser, becomes a SyntaxError. */
  function ParseDoubleCurrency(s: string, lowerBound: real): (r: Result<(real, string)>)
    ensures r.Ok? ==> r.value.0 >= lowerBound && IsCurrencyCode(r.value.1)
    ensures r.Err? ==> r.error == SyntaxError
  {
    var body := LineBody(s);
    if |body| < 3 || !NoNewline(body[..|body| - 3]) || !AllWordChars(body[|body| - 3..]) then
      Err(SyntaxError)
    else
      var operation := ParseArithmeticOperation(body[..|body| - 3], lowerBound);
      var currency := ParseCurrencyStrict(body[|body| - 3..]);
      if operation.Ok? && currency.Ok? then Ok((operation.value, currency.value))
      else Err(SyntaxError)
  }

  /** An operation followed by three word characters (and possibly a newline) is the
      pair of the two parses, or a SyntaxError when either fails. */
  lemma DoubleCurrencyParts(operation: string, currency: string, newline: bool, lowerBound: real)
    requires NoNewline(operation) && |currency| == 3 && AllWordChars(currency)
    ensures var s := operation + currency + (if newline then "\n" else "");
      ParseDoubleCurrency(s, lowerBound) ==
        if ParseArithmeticOperation(operation, lowerBound).Ok? && ParseCurrencyStrict(currency).Ok? then
          Ok((ParseArithmeticOperation(operation, lowerBound).value, ParseCurrencyStrict(currency).value))
        else Err(SyntaxError)
  {
    var s := operation + currency + (if newline then "\n" else "");
    var body := operation + currency;
    assert LineBody(s) == body by {
      if newline {
        assert s[..|s| - 1] == body;
      } else {
        assert s == body;
        assert s[|s| - 1] == currency[2];
      }
    }
    assert body[..|body| - 3] == operation;
    assert body[|body| - 3..] == currency;
  }

  /** The currency is taken from the end even when the operation is empty or bad. */
  lemma DoubleCurrencyNeedsOperation(currency: string, lowerBound: real)
    requires |currency| == 3 && AllWordChars(currency)
    ensures ParseDoubleCurrency(currency, lowerBound) == Err(SyntaxError)
  {
    DoubleCurrencyParts("", currency, false, lowerBound);
    assert "" + currency + "" == currency;
  }

  lemma NoNewlineConcat(a: string, b: string)
    requires NoNewline(a) && NoNewline(b)
    ensures NoNewline(a + b)
  {
    forall i | 0 <= i < |a + b| ensures (a + b)[i] != '\n' {
      if i >= |a| {
        assert (a + b)[i] == b[i - |a|];
      }
    }
  }

  lemma NumeralNoNewline(n: nat)
    ensures NoNewline(NatToString(n))
  {
    var d := NatToString(n);
    forall i | 0 <= i < |d| ensures d[i] != '\n' {
      assert IsDigit(d[i]);
    }
  }

  /** An operation that parses, then a blank, then a currency. */
  lemma DoubleCurrencyOfOperation(operation: string, currency: string, lowerBound: real, amount: Result<real>)
    requires NoNewline(operation) && |currency| == 3 && AllLetters(currency)
    requires ParseArithmeticOperation(operation, lowerBound) == amount
    ensures ParseDoubleCurrency(operation + currency, lowerBound) ==
      if amount.Ok? then Ok((amount.value, Upper(currency))) else Err(SyntaxError)
  {
    assert AllWordChars(currency);
    DoubleCurrencyParts(operation, currency, false, lowerBound);
    assert operation + currency + "" == operation + currency;
  }

  lemma EvalSum(a: nat, b: nat)
    ensures Eval(Binary(Add, Literal(a as real), Literal(b as real))) == Ok((a + b) as real)
  {
  }

  /** `=a+b xyz` is the sum of the numerals in the currency XYZ, or a SyntaxError
      when the sum is below the lower bound. */
  lemma DoubleCurrencySum(a: nat, b: nat, currency: string, lowerBound: real)
    requires |NatToString(a)| <= MaxStrDigits && |NatToString(b)| <= MaxStrDigits
    requires |currency| == 3 && AllLetters(currency)
    ensures ParseDoubleCurrency(['='] + NatToString(a) + ['+'] + NatToString(b) + " " + currency, lowerBound) ==
      if (a + b) as real >= lowerBound then Ok(((a + b) as real, Upper(currency))) else Err(SyntaxError)
  {
    var operation := ['='] + NatToString(a) + ['+'] + NatToString(b) + " ";
    ArithmeticOperationOfNumerals('=', a, Add, '+', b, " ", lowerBound);
    EvalSum(a, b);
    var amount := Bounded(Ok((a + b) as real), lowerBound);
    NumeralNoNewline(a);
    NumeralNoNewline(b);
    NoNewlineConcat(['='], NatToString(a));
    NoNewlineConcat(['='] + NatToString(a), ['+']);
    NoNewlineConcat(['='] + NatToString(a) + ['+'], NatToString(b));
    NoNewlineConcat(['='] + NatToString(a) + ['+'] + NatToString(b), " ");
    DoubleCurrencyOfOperation(operation, currency, lowerBound, amount);
  }

  // ---------------------------------------------------------------------------
  // parse_date

  /** `^[+-]\d{1,}$` on a stripped string. */
  predicate IsSignedDigits(t: string) {
    |t| >= 2 && (t[0] == '+' || t[0] == '-') && AllDigits(t[1..])
  }

  /** `^\d{1,2} \d{1,2}$` on a stripped string: the first group has to be the
      whole run of leading digits, since a space must follow it. */
  predicate IsDayMonth(t: string) {
    var k := DigitPrefixLength(t);
    1 <= k <= 2 && k < |t| && t[k] == ' ' && 1 <= |t| - (k + 1) <= 2 && AllDigits(t[k + 1..])
  }

  /** `today.replace(day=day, month=month)`. */
  function ReplaceDate(today: Date, month: int, day: int): (r: Result<Date>)
    ensures r.Ok? <==> Valid(Date(today.year, month, day))
    ensures r.Ok? ==> r.value == Date(today.year, month, day)
    ensures r.Err? ==> r.error == ValueError
  {
    var d := Date(today.year, month, day);
    if Valid(d) then Ok(d) else Err(ValueError)
  }

  /** The value of `int()` on a sign and a magnitude. */
  function Signed(sign: char, n: nat): int {
    if sign == '-' then -(n as int) else n
  }

  /** The two `strptime` formats in turn; when neither matches, a SyntaxError. */
  function StrptimeEither(t: string): (r: Result<Date>)
    ensures r.Ok? ==> Valid(r.value)
    ensures r.Err? ==> r.error == SyntaxError
  {
    match Strptime(t, FullYear)
    case Ok(d) => Ok(d)
    case Err(_) =>
      match Strptime(t, TwoDigitYear)
      case Ok(d) => Ok(d)
      case Err(_) => Err(SyntaxError)
  }

  /** The shapes `parse_date` tries on the stripped text, in order. */
  function DateOfText(today: Date, t: string): (r: Result<Date>)
    requires Valid(today)
    ensures r.Ok? ==> Valid(r.value)
    ensures r.Err? ==> r.error == SyntaxError || r.error == ValueError || r.error == Other
    ensures r == Err(Other) ==> IsSignedDigits(t)
  {
    if t == "0" || t == "" then Ok(today)
    else if IsSignedDigits(t) then
      var n :- IntOfDigits(t[1..]);
      AddDays(today, Signed(t[0], n))
    else if 1 <= |t| <= 2 && AllDigits(t) then
      ReplaceDate(today, today.month, DigitsValue(t))
    else if IsDayMonth(t) then
      var k := DigitPrefixLength(t);
      ReplaceDate(today, DigitsValue(t[k + 1..]), DigitsValue(t[..k]))
    else StrptimeEither(t)
  }

  /** `parse_date(date_str)` with `date.today()` passed in as `today`: blank or "0"
      is today, a signed number of digits moves that many days, one or two digits
      set the day of the current month, two such numbers the day and month of the
      current year, and otherwise `"%Y %m %d"` then `"%y %m %d"` are tried. */
  function ParseDate(today: Date, dateStr: string): (r: Result<Date>)
    requires Valid(today)
    ensures r.Ok? ==> Valid(r.value)
    ensures r.Err? ==> r.error == SyntaxError || r.error == ValueError || r.error == Other
    ensures r == Err(Other) ==> IsSignedDigits(Strip(dateStr))
  {
    DateOfText(today, Strip(dateStr))
  }

  /** Blank input, or "0" among blanks, is today. */
  lemma DateToday(today: Date, s: string)
    requires Valid(today) && (Strip(s) == "" || Strip(s) == "0")
    ensures ParseDate(today, s) == Ok(today)
  {
  }

  /** A sign and digits move today by that many days; more digits than `int`
      converts are a ValueError, and leaving years 1 to 9999 is an error too. */
  lemma DateOffset(today: Date, sign: char, digits: string)
    requires Valid(today) && (sign == '+' || sign == '-')
    requires |digits| > 0 && AllDigits(digits)
    ensures ParseDate(today, [sign] + digits) ==
      if |digits| > MaxStrDigits then Err(ValueError)
      else AddDays(today, Signed(sign, DigitsValue(digits)))
    ensures |digits| <= MaxStrDigits ==>
      (ParseDate(today, [sign] + digits).Ok? <==>
        1 <= Ordinal(today) + Signed(sign, DigitsValue(digits)) <= MaxOrdinal)
  {
    var t := [sign] + digits;
    StripTrimmed(t);
    assert t[1..] == digits;
    assert IsSignedDigits(t);
    AddDaysDefined(today, Signed(sign, DigitsValue(digits)));
  }

  /** One or two digits among blanks, other than "0" alone, set the day of the
      current month; "00" is day 0 and so a ValueError. */
  lemma DateDayOfMonth(today: Date, s: string)
    requires Valid(today) && 1 <= |Strip(s)| <= 2 && AllDigits(Strip(s))
    requires |Strip(s)| == 2 || Strip(s)[0] != '0'
    ensures ParseDate(today, s) == ReplaceDate(today, today.month, DigitsValue(Strip(s)))
  {
    DayOfMonthText(today, Strip(s));
  }

  lemma DayOfMonthText(today: Date, t: string)
    requires Valid(today) && 1 <= |t| <= 2 && AllDigits(t)
    requires |t| == 2 || t[0] != '0'
    ensures DateOfText(today, t) == ReplaceDate(today, today.month, DigitsValue(t))
  {
    assert !IsSignedDigits(t) by {
      assert IsDigit(t[0]);
    }
    assert t != "0" && t != "";
  }

  /** "d m" sets the day and the month of the current year. */
  lemma DateDayMonth(today: Date, day: string, month: string)
    requires Valid(today)
    requires 1 <= |day| <= 2 && AllDigits(day) && 1 <= |month| <= 2 && AllDigits(month)
    ensures ParseDate(today, day + " " + month) == ReplaceDate(today, DigitsValue(month), DigitsValue(day))
  {
    var t := day + " " + month;
    assert t[0] == day[0] && t[|t| - 1] == month[|month| - 1];
    assert IsDigit(day[0]) && IsDigit(month[|month| - 1]);
    DayMonthText(today, day, month);
    StripTrimmed(t);
  }

  lemma DayMonthText(today: Date, day: string, month: string)
    requires Valid(today)
    requires 1 <= |day| <= 2 && AllDigits(day) && 1 <= |month| <= 2 && AllDigits(month)
    ensures DateOfText(today, day + " " + month) == ReplaceDate(today, DigitsValue(month), DigitsValue(day))
  {
    var t := day + (" " + month);
    assert t == day + " " + month;
    DigitPrefixOfDigits(day, " " + month);
    var k := DigitPrefixLength(t);
    assert k == |day|;
    assert t[..k] == day && t[k] == ' ' && t[k + 1..] == month;
    assert IsDayMonth(t);
    assert !IsSignedDigits(t) by {
      assert IsDigit(t[0]) by {
        assert t[0] == day[0];
      }
    }
    assert !(t == "0" || t == "" || |t| <= 2);
  }

  /** A date written as `"%Y %m %d"` is read back. */
  lemma DateFormatted(today: Date, d: Date)
    requires Valid(today) && Valid(d)
    ensures ParseDate(today, FormatDate(d)) == Ok(d)
  {
    var t := FormatDate(d);
    var ys := FourDigits(d.year);
    assert t == ys + (" " + TwoDigits(d.month) + " " + TwoDigits(d.day));
    assert t[0] == ys[0] && t[|t| - 1] == TwoDigits(d.day)[1];
    StripTrimmed(t);
    DigitPrefixOfDigits(ys, " " + TwoDigits(d.month) + " " + TwoDigits(d.day));
    assert IsDigit(t[0]) && t[4] == ' ';
    StrptimeFormatDate(d);
  }

  /** A date written as `"%y %m %d"` is read back when its year is in the window
      1969 to 2068 that `%y` reads. */
  lemma DateShortFormatted(today: Date, d: Date)
    requires Valid(today) && Valid(d) && 1969 <= d.year <= 2068
    ensures ParseDate(today, FormatShortDate(d)) == Ok(d)
  {
    var t := FormatShortDate(d);
    var ys, ms := TwoDigits(d.year % 100), TwoDigits(d.month);
    assert t == ys + (" " + ms + " " + TwoDigits(d.day));
    assert t[0] == ys[0] && t[|t| - 1] == TwoDigits(d.day)[1];
    StripTrimmed(t);
    DigitPrefixOfDigits(ys, " " + ms + " " + TwoDigits(d.day));
    assert IsDigit(t[0]) && t[2] == ' ' && t[5] == ' ';
    assert t[3..] == ms + " " + TwoDigits(d.day);
    assert !AllDigits(t[3..]) by {
      assert t[3..][2] == ' ';
    }
    StrptimeFormatShortDate(d);
  }

  /** Any text that starts with neither a digit nor a sign is no date. */
  lemma DateOfWord(today: Date, s: string)
    requires Valid(today)
    requires Strip(s) != [] && !IsDigit(Strip(s)[0]) && Strip(s)[0] != '+' && Strip(s)[0] != '-'
    ensures ParseDate(today, s) == Err(SyntaxError)
  {
    var t := Strip(s);
    assert DigitPrefixLength(t) == 0;
    assert ScanFields(t, FullYear).None? by {
      if |t| >= 4 {
        assert t[..4][0] == t[0];
      }
    }
    assert ScanFields(t, TwoDigitYear).None? by {
      if |t| >= 2 {
        assert t[..2][0] == t[0];
      }
    }
  }


  // ---------------------------------------------------------------------------
  // parse_period

  /** A monthly `pandas.Period`. */
  datatype Period = Period(year: int, month: int)

  predicate ValidPeriod(p: Period) {
    1 <= p.month <= 12
  }

  /** The month ordinal pandas stores for a monthly period: January 1970 is 0. */
  function PeriodOrdinal(p: Period): int {
    (p.year - 1970) * 12 + p.month - 1
  }

  /** `Period(year=year, month=month, freq='M')`: pandas turns the fields into the
      ordinal without checking the month, so month 13 is January of the next year
      and month 0 is December of the year before. */
  function MonthlyPeriod(year: int, month: int): (p: Period)
    ensures ValidPeriod(p) && PeriodOrdinal(p) == (year - 1970) * 12 + month - 1
    ensures 1 <= month <= 12 ==> p == Period(year, month)
  {
    Period(year + (month - 1) / 12, (month - 1) % 12 + 1)
  }

  /** Two valid periods with the same ordinal are the same period. */
  lemma PeriodOrdinalInjective(a: Period, b: Period)
    requires ValidPeriod(a) && ValidPeriod(b) && PeriodOrdinal(a) == PeriodOrdinal(b)
    ensures a == b
  {
  }

  /** The largest month a C `int` holds. */
  const MaxCInt: int := 0x7fff_ffff

  /** `[\s\-\/]`. */
  predicate IsPeriodSeparator(c: char) {
    IsSpace(c) || c == '-' || c == '/'
  }

  /** `^(\d{2}|\d{4})([\s\-\/])(\d{1,2})$` with the year alternative of `width`
      digits, on the text before a final newline: the year, one separator and one
      or two month digits. */
  predicate ExplicitPeriodShape(b: string, width: nat) {
    width + 2 <= |b| <= width + 3 && AllDigits(b[..width])
    && IsPeriodSeparator(b[width]) && AllDigits(b[width + 1..])
  }

  /** The groups of that match. The two alternatives exclude each other: after two
      digits comes either the separator or the third digit of a four-digit year. */
  function PeriodFields(b: string): (r: Option<(nat, nat)>)
    ensures r.Some? <==> ExplicitPeriodShape(b, 2) || ExplicitPeriodShape(b, 4)
    ensures ExplicitPeriodShape(b, 2) ==> r == Some((DigitsValue(b[..2]), DigitsValue(b[3..])))
    ensures ExplicitPeriodShape(b, 4) ==> r == Some((DigitsValue(b[..4]), DigitsValue(b[5..])))
  {
    if ExplicitPeriodShape(b, 2) then
      Some((DigitsValue(b[..2]), DigitsValue(b[3..])))
    else if ExplicitPeriodShape(b, 4) then
      assert IsDigit(b[..4][2]);
      Some((DigitsValue(b[..4]), DigitsValue(b[5..])))
    else None
  }

  /** A month number `int()` converts and a C `int` holds. */
  predicate IsMonthNumber(b: string) {
    |b| > 0 && AllDigits(b) && |b| <= MaxStrDigits && DigitsValue(b) <= MaxCInt
  }

  /** A year below 100 is taken to be in the 2000s. */
  function CenturyAdjusted(year: nat): nat {
    if year < 100 then year + 2000 else year
  }

  /** `parse_period(period_str, default_period)`: blank or "0" is the default, any
      number of digits is a month of the default year, and "YY-M" or "YYYY-M"
      (with a space, `-` or `/` between) an explicit month; anything else fails
      on the missing match (an AttributeError, `Other` here). */
  function ParsePeriod(periodStr: string, default: Period): (r: Result<Period>)
    requires ValidPeriod(default)
    ensures r.Ok? ==> ValidPeriod(r.value)
    ensures r.Err? ==> r.error == ValueError || r.error == Other
    ensures r == Err(ValueError) ==> AllDigits(LineBody(periodStr)) && |LineBody(periodStr)| > MaxStrDigits
    ensures r.Ok? <==>
      (periodStr == "0" || periodStr == "" || IsMonthNumber(LineBody(periodStr))
       || ExplicitPeriodShape(LineBody(periodStr), 2) || ExplicitPeriodShape(LineBody(periodStr), 4))
  {
    if periodStr == "0" || periodStr == "" then Ok(default)
    else
      var b := LineBody(periodStr);
      if |b| > 0 && AllDigits(b) then
        var n :- IntOfDigits(b);
        if n > MaxCInt then Err(Other) else Ok(MonthlyPeriod(default.year, n))
      else
        match PeriodFields(b)
        case None => Err(Other)
        case Some(f) => Ok(MonthlyPeriod(CenturyAdjusted(f.0), f.1))
  }

  /** Digits alone (other than "0") count months from the start of the default
      year: the ordinal is that of January plus the number less one. */
  lemma PeriodOfMonthNumber(default: Period, digits: string)
    requires ValidPeriod(default) && |digits| > 0 && AllDigits(digits)
    requires |digits| > 1 || digits[0] != '0'
    requires |digits| <= MaxStrDigits && DigitsValue(digits) <= MaxCInt
    ensures ParsePeriod(digits, default) == Ok(MonthlyPeriod(default.year, DigitsValue(digits)))
    ensures PeriodOrdinal(ParsePeriod(digits, default).value) ==
      PeriodOrdinal(Period(default.year, 1)) + DigitsValue(digits) - 1
  {
    assert digits != "0" && digits != "";
    assert IsDigit(digits[|digits| - 1]);
  }

  /** A month number too large for a C `int` is an OverflowError. */
  lemma PeriodMonthOverflow(default: Period, digits: string)
    requires ValidPeriod(default) && |digits| > 0 && AllDigits(digits)
    requires |digits| <= MaxStrDigits && DigitsValue(digits) > MaxCInt
    ensures ParsePeriod(digits, default) == Err(Other)
  {
    assert digits != "0" && digits != "" by {
      assert DigitsValue(digits) != DigitsValue("0");
    }
    assert IsDigit(digits[|digits| - 1]);
  }

  /** A four-digit year on its own is read as a month count, not as a year:
      "2025" in 2025 is month 2025 of that year. */
  lemma PeriodOfBareYear(default: Period, year: int)
    requires ValidPeriod(default) && 1 <= year <= 9999
    ensures ParsePeriod(FourDigits(year), default) == Ok(MonthlyPeriod(default.year, year))
    ensures default.year == 2025 && year == 2025 ==> ParsePeriod(FourDigits(year), default) == Ok(Period(2193, 9))
  {
    var digits := FourDigits(year);
    PeriodOfMonthNumber(default, digits);
    if digits[0] == '0' {
      assert digits != "0";
    }
  }

  /** Two or four digits, a separator and one or two digits are that year and month
      (a year below 100 in the 2000s), with the month carried into the year. */
  lemma PeriodExplicit(default: Period, year: string, sep: char, month: string, newline: bool)
    requires ValidPeriod(default)
    requires (|year| == 2 || |year| == 4) && AllDigits(year) && IsPeriodSeparator(sep)
    requires 1 <= |month| <= 2 && AllDigits(month)
    ensures ParsePeriod(year + [sep] + month + (if newline then "\n" else ""), default) ==
      Ok(MonthlyPeriod(CenturyAdjusted(DigitsValue(year)), DigitsValue(month)))
  {
    var b := year + [sep] + month;
    var s := b + (if newline then "\n" else "");
    assert LineBody(s) == b by {
      if newline {
        assert s[..|s| - 1] == b;
      } else {
        assert s[|s| - 1] == month[|month| - 1];
        assert IsDigit(month[|month| - 1]);
      }
    }
    assert b[..|year|] == year && b[|year|] == sep && b[|year| + 1..] == month;
    assert !AllDigits(b) by {
      assert !IsDigit(b[|year|]);
    }
    assert s != "0" && s != "" by {
      assert |s| >= 3;
    }
    if |year| == 4 {
      assert !IsPeriodSeparator(b[2]) by {
        assert b[2] == year[2] && IsDigit(year[2]);
      }
      assert b[..4] == year && b[5..] == month;
    } else {
      assert b[..2] == year && b[3..] == month;
    }
  }

  /** Text of none of the three accepted shapes finds no match, and `.groups()` on
      the missing match is an AttributeError. */
  lemma PeriodOtherShape(default: Period, s: string)
    requires ValidPeriod(default) && s != "0" && s != ""
    requires !(|LineBody(s)| > 0 && AllDigits(LineBody(s)))
    requires !ExplicitPeriodShape(LineBody(s), 2) && !ExplicitPeriodShape(LineBody(s), 4)
    ensures ParsePeriod(s, default) == Err(Other)
  {
  }

  /** A year and a separator with no month digits after it is no period: the month
      group needs at least one digit. */
  lemma PeriodWithoutMonth(default: Period, year: string, sep: char)
    requires ValidPeriod(default)
    requires (|year| == 2 || |year| == 4) && AllDigits(year) && IsPeriodSeparator(sep) && sep != '\n'
    ensures ParsePeriod(year + [sep], default) == Err(Other)
  {
    var s := year + [sep];
    assert LineBody(s) == s;
    assert !IsDigit(s[|year|]);
    PeriodOtherShape(default, s);
  }

  /** `p.strftime("%Y-%m")` for a year of four digits. */
  function FormatPeriod(p: Period): string
    requires ValidPeriod(p) && 0 <= p.year <= 9999
  {
    FourDigits(p.year) + "-" + TwoDigits(p.month)
  }

  /** A period written as "YYYY-MM" is read back, as long as its year has no
      leading zeros to hide a year below 100. */
  lemma PeriodFormatted(default: Period, p: Period)
    requires ValidPeriod(default) && ValidPeriod(p) && 100 <= p.year <= 9999
    ensures ParsePeriod(FormatPeriod(p), default) == Ok(p)
  {
    PeriodExplicit(default, FourDigits(p.year), '-', TwoDigits(p.month), false);
    assert FourDigits(p.year) + "-" + TwoDigits(p.month) + "" == FormatPeriod(p);
  }

  /** A text that starts with neither a digit nor a newline-only tail is no period. */
  lemma PeriodOfWord(default: Period, s: string)
    requires ValidPeriod(default) && |s| > 0 && !IsDigit(s[0]) && s != "\n"
    ensures ParsePeriod(s, default) == Err(Other)
  {
    var b := LineBody(s);
    assert |b| > 0 && b[0] == s[0];
    assert !AllDigits(b);
    assert PeriodFields(b) == None by {
      if |b| >= 2 {
        assert b[..2][0] == b[0];
      }
      if |b| >= 4 {
        assert b[..4][0] == b[0];
      }
    }
    assert s != "0";
  }

  // ---------------------------------------------------------------------------
  // parse_category

  /** `parse_category(category_dict, category_str)`, with the index that
      `random.choice` draws passed in as `pick`: blank text picks a category at
      random (an IndexError on an empty dictionary), other text is the upper-cased
      text when that is a key, and a KeyError when it is not. */
  function ParseCategory(categories: Dict<string>, categoryStr: string, pick: nat): (r: Result<string>)
    ensures r.Ok? ==> r.value in Keys(categories)
    ensures categoryStr != "" ==> (r.Ok? <==> Upper(categoryStr) in Keys(categories))
    ensures categoryStr != "" && r.Ok? ==> r.value == Upper(categoryStr)
    ensures categoryStr == "" ==> (r.Ok? <==> |categories| > 0)
    ensures r.Err? ==> r.error == (if categoryStr == "" then Other else KeyError)
  {
    if categoryStr == "" then
      if |categories| == 0 then Err(Other) else Ok(Keys(categories)[pick % |categories|])
    else if Upper(categoryStr) in Keys(categories) then Ok(Upper(categoryStr))
    else Err(KeyError)
  }

  /** Case does not matter: two spellings that upper-case alike give one answer. */
  lemma CategoryCaseInsensitive(categories: Dict<string>, a: string, b: string, pick: nat)
    requires a != "" && b != "" && Upper(a) == Upper(b)
    ensures ParseCategory(categories, a, pick) == ParseCategory(categories, b, pick)
  {
  }

  /** When every key is upper case, what the parser returns it accepts unchanged,
      whether typed or drawn at random. */
  lemma CategoryIdempotent(categories: Dict<string>, s: string, pick: nat, pick': nat)
    requires forall i :: 0 <= i < |categories| ==> IsUpper(categories[i].0) && categories[i].0 != ""
    requires ParseCategory(categories, s, pick).Ok?
    ensures ParseCategory(categories, ParseCategory(categories, s, pick).value, pick') == ParseCategory(categories, s, pick)
  {
    var k := ParseCategory(categories, s, pick).value;
    var i :| 0 <= i < |categories| && Keys(categories)[i] == k;
    UpperOfUpper(k);
  }

  /** A category parsed against the dictionary built from the category file is the
      short name of a category, or of a sub-category, listed in that file. */
  lemma CategoryFromFile(items: seq<Get.Item>, s: string, pick: nat)
    requires ParseCategory(Get.CategoryDictionary(items), s, pick).Ok?
    ensures exists i :: 0 <= i < |items| && Get.Contributes(items[i], ParseCategory(Get.CategoryDictionary(items), s, pick).value)
  {
    Get.CategoryKeys(items, ParseCategory(Get.CategoryDictionary(items), s, pick).value);
  }

  // ---------------------------------------------------------------------------
  // parse_valid_element_list

  /** The argument `column_input`: a string, an integer, or anything else. */
  datatype Column = Name(name: string) | Index(position: int) | Unsupported

  /** `parse_valid_element_list(column_input, list_to_validate, keybinds)`: a string
      is looked up among the keybinds first and then in the list (a KeyError if in
      neither), an integer is a position in the list (a ValueError outside it), and
      any other argument is a SyntaxError. */
  function ParseValidElementList(column: Column, elements: seq<string>, keybinds: Dict<string>): (r: Result<string>)
    ensures r.Ok? ==> r.value in elements || (column.Name? && Lookup(keybinds, column.name) == Some(r.value))
    ensures r.Err? ==> r.error == match column
      case Name(_) => KeyError
      case Index(_) => ValueError
      case Unsupported => SyntaxError
    ensures column.Name? ==> (r.Ok? <==> column.name in Keys(keybinds) || column.name in elements)
    ensures column.Index? ==> (r.Ok? <==> 0 <= column.position < |elements|)
    ensures column.Index? && r.Ok? ==> r.value == elements[column.position]
    ensures column.Unsupported? ==> r.Err?
  {
    match column
    case Name(n) =>
      (match Lookup(keybinds, n)
       case Some(v) => Ok(v)
       case None => if n in elements then Ok(n) else Err(KeyError))
    case Index(i) =>
      if 0 <= i < |elements| then Ok(elements[i]) else Err(ValueError)
    case Unsupported => Err(SyntaxError)
  }

  /** A keybind wins over an element of the same name. */
  lemma ElementKeybindFirst(name: string, elements: seq<string>, keybinds: Dict<string>, v: string)
    requires DistinctKeys(keybinds) && (name, v) in keybinds
    ensures ParseValidElementList(Name(name), elements, keybinds) == Ok(v)
  {
    LookupMember(keybinds, name, v);
  }

  /** Without a keybind, a name is accepted exactly when it is in the list. */
  lemma ElementByName(name: string, elements: seq<string>, keybinds: Dict<string>)
    requires name !in Keys(keybinds)
    ensures ParseValidElementList(Name(name), elements, keybinds) ==
      if name in elements then Ok(name) else Err(KeyError)
  {
  }

  /** A position inside the list gives the element there, whatever the keybinds
      are, and a position outside it is a ValueError. */
  lemma ElementAtIndex(i: int, elements: seq<string>, keybinds: Dict<string>)
    ensures ParseValidElementList(Index(i), elements, keybinds) ==
      if 0 <= i < |elements| then Ok(elements[i]) else Err(ValueError)
  {
  }

  /** An element that no keybind shadows can also be given by its name. */
  lemma ElementOwnName(i: int, elements: seq<string>, keybinds: Dict<string>)
    requires 0 <= i < |elements| && elements[i] !in Keys(keybinds)
    ensures ParseValidElementList(Name(elements[i]), elements, keybinds) == Ok(elements[i])
  {
  }

  /** When every keybind points into the list, every answer is an element. */
  lemma ElementInList(column: Column, elements: seq<string>, keybinds: Dict<string>)
    requires forall j :: 0 <= j < |keybinds| ==> keybinds[j].1 in elements
    requires ParseValidElementList(column, elements, keybinds).Ok?
    ensures ParseValidElementList(column, elements, keybinds).value in elements
  {
    if column.Name? && Lookup(keybinds, column.name).Some? {
      LookupInValues(keybinds, column.name);
    }
  }

  lemma {:induction false} LookupInValues(d: Dict<string>, k: string)
    requires Lookup(d, k).Some?
    ensures exists j :: 0 <= j < |d| && d[j].1 == Lookup(d, k).value
  {
    if d[0].0 != k {
      LookupInValues(d[1..], k);
      var j :| 0 <= j < |d[1..]| && d[1..][j].1 == Lookup(d[1..], k).value;
      assert d[j + 1].1 == Lookup(d, k).value;
    }
  }

  // ---------------------------------------------------------------------------
  // parse_semantic_filter

  /** The query `parse_semantic_filter` builds: all records, or the records whose
      column satisfies one condition (`like` is SQL LIKE, `regex` a regular
      expression match). */
  datatype Filter =
    | All
    | AmountBetween(low: real, high: real)
    | DateLike(datePattern: string)
    | DateEquals(date: string)
    | DateRegex(dateRegex: string)
    | CategoryEquals(category: string)
    | CategoryRegex(categoryRegex: string)
    | CurrencyEquals(currency: string)
    | DescriptionLike(descriptionPattern: string)
    | DescriptionEquals(description: string)

  predicate IsAmountWord(w: string) { w == "amount" || w == "am" }
  predicate IsBetweenWord(w: string) { w == "between" || w == "b" }
  predicate IsRegexWord(w: string) { w == "r" || w == "regex" || w == "regexp" }
  predicate IsCategoryWord(w: string) { w == "category" || w == "cat" }
  predicate IsCurrencyWord(w: string) { w == "currency" || w == "cur" }
  predicate IsDescriptionWord(w: string) { w == "description" || w == "desc" }

  /** The patterns of the cases of the `match` statement, in no particular order:
      the word lists that some case other than the wildcard accepts. */
  predicate FitsSomeClause(ws: seq<string>) {
    || ws == []
    || (|ws| == 4 && IsAmountWord(ws[0]) && IsBetweenWord(ws[1]))
    || (|ws| == 2 && (ws[0] == "date" || IsCategoryWord(ws[0]) || IsCurrencyWord(ws[0])))
    || (|ws| == 3 && ws[0] == "date" && (ws[1] == "like" || ws[1] == "=" || IsRegexWord(ws[2])))
    || (|ws| == 3 && IsCategoryWord(ws[0]) && IsRegexWord(ws[2]))
    || (|ws| == 3 && IsDescriptionWord(ws[0]) && (ws[1] == "like" || ws[1] == "="))
  }

  /** The `match` statement on the words: the first case whose pattern fits wins,
      keywords are compared exactly, and the amount bounds go through `float`. Each
      kind of filter comes only from the words of its own case. */
  function FilterOfWords(ws: seq<string>): (r: Result<Filter>)
    ensures r.Err? ==> r.error == SyntaxError || r.error == ValueError
    ensures r.Err? && r.error == ValueError ==> |ws| == 4 && IsAmountWord(ws[0]) && IsBetweenWord(ws[1])
    ensures r == Err(SyntaxError) <==> !FitsSomeClause(ws)
    ensures r == Ok(All) <==> ws == []
    ensures r.Ok? && r.value.AmountBetween? ==>
      |ws| == 4 && IsAmountWord(ws[0]) && IsBetweenWord(ws[1])
      && ParseFloat(ws[2]) == Ok(r.value.low) && ParseFloat(ws[3]) == Ok(r.value.high)
    ensures r.Ok? && r.value.DateLike? ==>
      ((|ws| == 3 && ws[0] == "date" && ws[1] == "like" && r.value.datePattern == ws[2])
       || (|ws| == 2 && ws[0] == "date" && r.value.datePattern == ws[1]))
    ensures r.Ok? && r.value.DateEquals? ==>
      |ws| == 3 && ws[0] == "date" && ws[1] == "=" && r.value.date == ws[2]
    ensures r.Ok? && r.value.DateRegex? ==>
      |ws| == 3 && ws[0] == "date" && IsRegexWord(ws[2]) && r.value.dateRegex == ws[1]
    ensures r.Ok? && r.value.CategoryEquals? ==>
      |ws| == 2 && IsCategoryWord(ws[0]) && r.value.category == Upper(ws[1])
    ensures r.Ok? && r.value.CategoryRegex? ==>
      |ws| == 3 && IsCategoryWord(ws[0]) && IsRegexWord(ws[2]) && r.value.categoryRegex == Upper(ws[1])
    ensures r.Ok? && r.value.CurrencyEquals? ==>
      |ws| == 2 && IsCurrencyWord(ws[0]) && r.value.currency == Upper(ws[1])
    ensures r.Ok? && r.value.DescriptionLike? ==>
      |ws| == 3 && IsDescriptionWord(ws[0]) && ws[1] == "like" && r.value.descriptionPattern == ws[2]
    ensures r.Ok? && r.value.DescriptionEquals? ==>
      |ws| == 3 && IsDescriptionWord(ws[0]) && ws[1] == "=" && r.value.description == ws[2]
  {
    if |ws| == 4 && IsAmountWord(ws[0]) && IsBetweenWord(ws[1]) then
      var low :- ParseFloat(ws[2]);
      var high :- ParseFloat(ws[3]);
      Ok(AmountBetween(low, high))
    else if |ws| == 3 && ws[0] == "date" && ws[1] == "like" then Ok(DateLike(ws[2]))
    else if |ws| == 2 && ws[0] == "date" then Ok(DateLike(ws[1]))
    else if |ws| == 3 && ws[0] == "date" && ws[1] == "=" then Ok(DateEquals(ws[2]))
    else if |ws| == 3 && ws[0] == "date" && IsRegexWord(ws[2]) then Ok(DateRegex(ws[1]))
    else if |ws| == 2 && IsCategoryWord(ws[0]) then Ok(CategoryEquals(Upper(ws[1])))
    else if |ws| == 3 && IsCategoryWord(ws[0]) && IsRegexWord(ws[2]) then Ok(CategoryRegex(Upper(ws[1])))
    else if |ws| == 2 && IsCurrencyWord(ws[0]) then Ok(CurrencyEquals(Upper(ws[1])))
    else if |ws| == 3 && IsDescriptionWord(ws[0]) && ws[1] == "like" then Ok(DescriptionLike(ws[2]))
    else if |ws| == 3 && IsDescriptionWord(ws[0]) && ws[1] == "=" then Ok(DescriptionEquals(ws[2]))
    else if ws == [] then Ok(All)
    else Err(SyntaxError)
  }

  /** `parse_semantic_filter(semantic_filter)`: the filter the whitespace-separated
      words of the text describe. */
  function ParseSemanticFilter(semanticFilter: string): (r: Result<Filter>)
    ensures r.Err? ==> r.error == SyntaxError || r.error == ValueError
    ensures r == Ok(All) <==> forall i :: 0 <= i < |semanticFilter| ==> IsSpace(semanticFilter[i])
    ensures r == Err(SyntaxError) <==> !FitsSomeClause(Split(semanticFilter))
  {
    SplitEmpty(semanticFilter);
    FilterOfWords(Split(semanticFilter))
  }

  /** Bounds that are not numbers are a ValueError; they are not reported as a
      syntax error. */
  lemma FilterBadAmount(ws: seq<string>)
    requires |ws| == 4 && IsAmountWord(ws[0]) && IsBetweenWord(ws[1])
    requires ParseFloat(ws[2]).Err? || ParseFloat(ws[3]).Err?
    ensures FilterOfWords(ws) == Err(ValueError)
  {
  }

  /** "date like X" is a LIKE on X even when X is a regex keyword: the cases are
      tried in order. */
  lemma FilterFirstMatch(x: string)
    ensures FilterOfWords(["date", "like", x]) == Ok(DateLike(x))
    ensures FilterOfWords(["date", "=", "r"]) == Ok(DateEquals("r"))
    ensures FilterOfWords(["date", "like", "regex"]) == Ok(DateLike("regex"))
    ensures FilterOfWords(["date", "like"]) == Ok(DateLike("like"))
  {
  }

  /** Keywords are case sensitive, and a date needs its three-word cases to hold
      its pattern in a known position. */
  lemma FilterCaseSensitive(x: string)
    ensures FilterOfWords(["Date", x]) == Err(SyntaxError)
    ensures FilterOfWords(["AMOUNT", "between", x, x]) == Err(SyntaxError)
    ensures FilterOfWords(["date", x, "between"]) == Err(SyntaxError) <==> x != "like" && x != "="
  {
    assert !FitsSomeClause(["Date", x]);
    assert !FitsSomeClause(["AMOUNT", "between", x, x]);
    assert FitsSomeClause(["date", x, "between"]) <==> x == "like" || x == "=" by {
      assert !IsRegexWord("between");
    }
  }

  /** A filter that can be written as words the parser reads back: integral amount
      bounds (written as `str` of an integer), single-word patterns without
      lower-case letters where the parser upper-cases, and a date regex that is not
      itself the keyword of an earlier case. */
  predicate WellFormed(f: Filter) {
    match f
    case All => true
    case AmountBetween(low, high) => low == low.Floor as real && high == high.Floor as real
    case DateLike(p) => IsToken(p)
    case DateEquals(d) => IsToken(d)
    case DateRegex(p) => IsToken(p) && p != "like" && p != "="
    case CategoryEquals(c) => IsToken(c) && IsUpper(c)
    case CategoryRegex(p) => IsToken(p) && IsUpper(p)
    case CurrencyEquals(c) => IsToken(c) && IsUpper(c)
    case DescriptionLike(p) => IsToken(p)
    case DescriptionEquals(d) => IsToken(d)
  }

  /** The words of a filter, in the long form of each keyword. */
  function Render(f: Filter): seq<string> {
    match f
    case All => []
    case AmountBetween(low, high) => ["amount", "between", IntToString(low.Floor), IntToString(high.Floor)]
    case DateLike(p) => ["date", "like", p]
    case DateEquals(d) => ["date", "=", d]
    case DateRegex(p) => ["date", p, "regex"]
    case CategoryEquals(c) => ["category", c]
    case CategoryRegex(p) => ["category", p, "regex"]
    case CurrencyEquals(c) => ["currency", c]
    case DescriptionLike(p) => ["description", "like", p]
    case DescriptionEquals(d) => ["description", "=", d]
  }

  /** The parser reads every well-formed filter back from its words. */
  lemma FilterOfRender(f: Filter)
    requires WellFormed(f)
    ensures FilterOfWords(Render(f)) == Ok(f)
  {
    match f
    case AmountBetween(low, high) => AmountOfRender(low.Floor, high.Floor);
    case CategoryEquals(c) => UpperOfUpper(c);
    case CategoryRegex(p) => UpperOfUpper(p);
    case CurrencyEquals(c) => UpperOfUpper(c);
    case _ =>
  }

  lemma AmountOfRender(low: int, high: int)
    ensures FilterOfWords(["amount", "between", IntToString(low), IntToString(high)])
         == Ok(AmountBetween(low as real, high as real))
  {
    ParseFloatIntToString(low);
    ParseFloatIntToString(high);
    AmountOfWords("amount", "between", IntToString(low), IntToString(high), low as real, high as real);
  }

  /** Two bounds that `float` reads give the amount filter between them. */
  lemma AmountOfWords(am: string, between: string, a: string, b: string, low: real, high: real)
    requires IsAmountWord(am) && IsBetweenWord(between)
    requires ParseFloat(a) == Ok(low) && ParseFloat(b) == Ok(high)
    ensures FilterOfWords([am, between, a, b]) == Ok(AmountBetween(low, high))
  {
    var ws := [am, between, a, b];
    assert |ws| == 4 && IsAmountWord(ws[0]) && IsBetweenWord(ws[1]);
    assert ws[2] == a && ws[3] == b;
  }

  lemma IntToStringToken(i: int)
    ensures IsToken(IntToString(i))
  {
    DigitsToken(NatToString(if i < 0 then -i else i));
  }

  /** A numeral, with or without a minus sign, has no blank in it. */
  lemma DigitsToken(ds: string)
    requires |ds| > 0 && AllDigits(ds)
    ensures IsToken(ds) && IsToken("-" + ds)
  {
    forall k | 0 <= k < |ds| ensures !IsSpace(ds[k]) {
      assert IsDigit(ds[k]);
    }
    forall k | 0 <= k < |"-" + ds| ensures !IsSpace(("-" + ds)[k]) {
      if k > 0 {
        assert ("-" + ds)[k] == ds[k - 1];
      }
    }
  }



  /** The words of a filter are all words. */
  lemma RenderTokens(f: Filter)
    requires WellFormed(f)
    ensures AllTokens(Render(f))
  {
    KeywordTokens();
    match f
    case All =>
    case AmountBetween(low, high) =>
      IntToStringToken(low.Floor);
      IntToStringToken(high.Floor);
      WordsTokens(["amount", "between", IntToString(low.Floor), IntToString(high.Floor)]);
    case DateLike(p) => WordsTokens(["date", "like", p]);
    case DateEquals(d) => WordsTokens(["date", "=", d]);
    case DateRegex(p) => WordsTokens(["date", p, "regex"]);
    case CategoryEquals(c) => WordsTokens(["category", c]);
    case CategoryRegex(p) => WordsTokens(["category", p, "regex"]);
    case CurrencyEquals(c) => WordsTokens(["currency", c]);
    case DescriptionLike(p) => WordsTokens(["description", "like", p]);
    case DescriptionEquals(d) => WordsTokens(["description", "=", d]);
  }

  lemma WordsTokens(ws: seq<string>)
    requires 2 <= |ws| <= 4 && IsToken(ws[0]) && IsToken(ws[1])
    requires |ws| >= 3 ==> IsToken(ws[2])
    requires |ws| == 4 ==> IsToken(ws[3])
    ensures AllTokens(ws)
  {
  }

  /** The words `Render` writes besides the payloads are words. */
  lemma KeywordTokens()
    ensures IsToken("amount") && IsToken("between") && IsToken("date") && IsToken("like") && IsToken("=")
    ensures IsToken("regex") && IsToken("category") && IsToken("currency") && IsToken("description")
  {
    ShortKeywordTokens();
    LongKeywordTokens();
  }

  lemma ShortKeywordTokens()
    ensures IsToken("amount") && IsToken("between") && IsToken("date") && IsToken("like") && IsToken("=")
  {
  }

  lemma LongKeywordTokens()
    ensures IsToken("regex") && IsToken("category") && IsToken("currency") && IsToken("description")
  {
  }

  /** The filter written out with single spaces parses back to itself. */
  lemma FilterRoundTrip(f: Filter)
    requires WellFormed(f)
    ensures ParseSemanticFilter(Join(Render(f))) == Ok(f)
  {
    RenderTokens(f);
    SplitJoin(Render(f));
    FilterOfRender(f);
  }
}
