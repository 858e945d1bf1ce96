/** The part of `simpleeval.simple_eval` that cell arithmetic relies on: the text is
    stripped, read as a Python expression and evaluated. Modelled are integer literals
    of plain decimal digits (no underscores, no hexadecimal, octal or binary prefix, and
    no leading zeros except for zero itself, as Python requires), the names
    `True`, `False` and `None` that simpleeval predefines, unary and binary `+` and `-`,
    and parentheses. Everything else, and every Python error (a syntax error, an
    undefined name, `None + 1`), is a failure. */
module ArithEval {
  import opened Wrappers
  import opened Text

  /** The values these expressions can produce. */
  datatype Value = IntV(i: int) | BoolV(b: bool) | NoneV

  datatype Constant = TrueConst | FalseConst | NoneConst

  datatype Token = Num(n: nat) | Name(c: Constant) | Plus | Minus | LParen | RParen

  datatype Expr =
    | Number(n: nat)
    | Lit(c: Constant)
    | Pos(e: Expr)
    | Neg(e: Expr)
    | Add(left: Expr, right: Expr)
    | Sub(left: Expr, right: Expr)

  /** Python's numeric view of a value: a bool is 0 or 1, `None` has none. */
  function AsInt(v: Value): Option<int>
  {
    match v
    case IntV(i) => Some(i)
    case BoolV(b) => Some(if b then 1 else 0)
    case NoneV => None
  }

  function ConstantValue(c: Constant): Value
  {
    match c
    case TrueConst => BoolV(true)
    case FalseConst => BoolV(false)
    case NoneConst => NoneV
  }

  /** The reference semantics: what Python computes for the expression, `None` for the
      TypeError of arithmetic on `None`. */
  function Denote(e: Expr): Option<Value>
  {
    match e
    case Number(n) => Some(IntV(n))
    case Lit(c) => Some(ConstantValue(c))
    case Pos(a) => Unary(Denote(a), false)
    case Neg(a) => Unary(Denote(a), true)
    case Add(a, b) => Binary(Denote(a), Denote(b), false)
    case Sub(a, b) => Binary(Denote(a), Denote(b), true)
  }

  function Unary(v: Option<Value>, negate: bool): (r: Option<Value>)
    ensures r.Some? <==> v.Some? && AsInt(v.value).Some?
  {
    if v.None? || AsInt(v.value).None? then None
    else var x := AsInt(v.value).value; Some(IntV(if negate then -x else x))
  }

  function Binary(v: Option<Value>, w: Option<Value>, subtract: bool): (r: Option<Value>)
    ensures r.Some? <==> v.Some? && w.Some? && AsInt(v.value).Some? && AsInt(w.value).Some?
  {
    if v.None? || w.None? || AsInt(v.value).None? || AsInt(w.value).None? then None
    else
      var x, y := AsInt(v.value).value, AsInt(w.value).value;
      Some(IntV(if subtract then x - y else x + y))
  }

  /** `str(value)`. */
  function Display(v: Value): (s: string)
    ensures |s| >= 1
  {
    match v
    case IntV(i) => IntToString(i)
    case BoolV(b) => if b then "True" else "False"
    case NoneV => "None"
  }

  // ----- Tokenizer -----

  /** The blanks Python's tokenizer skips inside a line. */
  predicate IsBlank(c: char) { c == ' ' || c == '\t' || c == '\U{000C}' }

  predicate IsIdentStart(c: char) { 'a' <= c <= 'z' || 'A' <= c <= 'Z' || c == '_' }

  predicate IsIdentChar(c: char) { IsIdentStart(c) || IsDigit(c) }

  /** Length of the run of digits at the start of `s`. */
  function DigitRun(s: string): (k: nat)
    ensures k <= |s|
    ensures forall i :: 0 <= i < k ==> IsDigit(s[i])
    ensures k < |s| ==> !IsDigit(s[k])
  {
    if s != [] && IsDigit(s[0]) then 1 + DigitRun(s[1..]) else 0
  }

  /** Length of the run of identifier characters at the start of `s`. */
  function IdentRun(s: string): (k: nat)
    ensures k <= |s|
    ensures forall i :: 0 <= i < k ==> IsIdentChar(s[i])
    ensures k < |s| ==> !IsIdentChar(s[k])
  {
    if s != [] && IsIdentChar(s[0]) then 1 + IdentRun(s[1..]) else 0
  }

  predicate AllZeros(s: string) { forall i :: 0 <= i < |s| ==> s[i] == '0' }

  /** Python rejects a decimal literal with a leading zero unless it is all zeros. */
  predicate ValidDecimal(lit: string)
  {
    lit != [] && (lit[0] != '0' || AllZeros(lit))
  }

  function ConstantNamed(name: string): Option<Constant>
  {
    if name == "True" then Some(TrueConst)
    else if name == "False" then Some(FalseConst)
    else if name == "None" then Some(NoneConst)
    else None
  }

  function Cons(t: Token, r: Option<seq<Token>>): Option<seq<Token>>
  {
    if r.None? then None else Some([t] + r.value)
  }

  /** What the tokenizer finds at the start of the text: a blank to skip or a token. */
  datatype Lexeme = Skip | Tok(t: Token)

  /** The lexeme at the start of non-empty text and its length; `None` is a character or
      a word this model does not read. */
  function NextLexeme(s: string): (r: Option<(Lexeme, nat)>)
    requires s != []
    ensures r.Some? ==> 1 <= r.value.1 <= |s|
  {
    if IsBlank(s[0]) then Some((Skip, 1))
    else if s[0] == '+' then Some((Tok(Plus), 1))
    else if s[0] == '-' then Some((Tok(Minus), 1))
    else if s[0] == '(' then Some((Tok(LParen), 1))
    else if s[0] == ')' then Some((Tok(RParen), 1))
    else if IsDigit(s[0]) then
      var k := DigitRun(s);
      if ValidDecimal(s[..k]) then Some((Tok(Num(DigitsValue(s[..k]))), k)) else None
    else if IsIdentStart(s[0]) then
      var k := IdentRun(s);
      var c := ConstantNamed(s[..k]);
      if c.Some? then Some((Tok(Name(c.value)), k)) else None
    else None
  }

  function Tokenize(s: string): Option<seq<Token>>
    decreases |s|
  {
    if s == [] then Some([])
    else
      var next := NextLexeme(s);
      if next.None? then None
      else
        var rest := Tokenize(s[next.value.1..]);
        match next.value.0
        case Skip => rest
        case Tok(t) => Cons(t, rest)
  }

  // ----- Parser: expr := unary (('+' | '-') unary)*, unary := ('+' | '-') unary | atom -----

  function ParseExpr(t: seq<Token>, i: nat): (r: Option<(Expr, nat)>)
    requires i <= |t|
    ensures r.Some? ==> i < r.value.1 <= |t|
    decreases |t| - i, 2
  {
    var u := ParseUnary(t, i);
    if u.None? then None else ParseTail(t, u.value.1, u.value.0)
  }

  function ParseUnary(t: seq<Token>, i: nat): (r: Option<(Expr, nat)>)
    requires i <= |t|
    ensures r.Some? ==> i < r.value.1 <= |t|
    decreases |t| - i, 1
  {
    if i == |t| then None
    else
      match t[i]
      case Plus =>
        var u := ParseUnary(t, i + 1);
        if u.None? then None else Some((Pos(u.value.0), u.value.1))
      case Minus =>
        var u := ParseUnary(t, i + 1);
        if u.None? then None else Some((Neg(u.value.0), u.value.1))
      case Num(n) => Some((Number(n), i + 1))
      case Name(c) => Some((Lit(c), i + 1))
      case LParen =>
        var inner := ParseExpr(t, i + 1);
        if inner.None? then None
        else if inner.value.1 < |t| && t[inner.value.1] == RParen then Some((inner.value.0, inner.value.1 + 1))
        else None
      case RParen => None
  }

  /** The left-associative chain of binary operators after a first operand. */
  function ParseTail(t: seq<Token>, j: nat, left: Expr): (r: Option<(Expr, nat)>)
    requires j <= |t|
    ensures r.Some? ==> j <= r.value.1 <= |t|
    decreases |t| - j, 0
  {
    if j < |t| && (t[j] == Plus || t[j] == Minus) then
      var u := ParseUnary(t, j + 1);
      if u.None? then None
      else ParseTail(t, u.value.1, if t[j] == Plus then Add(left, u.value.0) else Sub(left, u.value.0))
    else Some((left, j))
  }

  /** A whole token sequence read as one expression. */
  function Parse(t: seq<Token>): Option<Expr>
  {
    var r := ParseExpr(t, 0);
    if r.Some? && r.value.1 == |t| then Some(r.value.0) else None
  }

  /** `simple_eval(text)`; `None` is any exception it raises. */
  function Eval(text: string): Option<Value>
  {
    var tokens := Tokenize(Strip(text));
    if tokens.None? then None
    else
      var e := Parse(tokens.value);
      if e.None? then None else Denote(e.value)
  }

  // ----- Printing, the inverse of parsing -----

  /** Every compound expression is written inside its own parentheses. */
  function Tokens(e: Expr): seq<Token>
  {
    match e
    case Number(n) => [Num(n)]
    case Lit(c) => [Name(c)]
    case Pos(a) => [LParen, Plus] + Tokens(a) + [RParen]
    case Neg(a) => [LParen, Minus] + Tokens(a) + [RParen]
    case Add(a, b) => [LParen] + Tokens(a) + [Plus] + Tokens(b) + [RParen]
    case Sub(a, b) => [LParen] + Tokens(a) + [Minus] + Tokens(b) + [RParen]
  }

  function ConstantName(c: Constant): string
  {
    match c
    case TrueConst => "True"
    case FalseConst => "False"
    case NoneConst => "None"
  }

  function Size(e: Expr): (n: nat)
    ensures n >= 1
  {
    match e
    case Number(_) => 1
    case Lit(_) => 1
    case Pos(a) => 1 + Size(a)
    case Neg(a) => 1 + Size(a)
    case Add(a, b) => 1 + Size(a) + Size(b)
    case Sub(a, b) => 1 + Size(a) + Size(b)
  }

  /** The tokens `ts` occur in `t` from position i on. */
  predicate At(t: seq<Token>, i: nat, ts: seq<Token>)
  {
    i + |ts| <= |t| && t[i..i + |ts|] == ts
  }

  lemma AtSplit(t: seq<Token>, i: nat, xs: seq<Token>, ys: seq<Token>)
    requires At(t, i, xs + ys)
    ensures At(t, i, xs) && At(t, i + |xs|, ys)
  {
    assert t[i..i + |xs|] == (xs + ys)[..|xs|] == xs by {
      assert t[i..i + |xs|] == t[i..i + |xs + ys|][..|xs|];
    }
    assert t[i + |xs|..i + |xs| + |ys|] == (xs + ys)[|xs|..] == ys by {
      assert t[i + |xs|..i + |xs| + |ys|] == t[i..i + |xs + ys|][|xs|..];
    }
  }

  lemma AtOne(t: seq<Token>, i: nat, x: Token)
    requires At(t, i, [x])
    ensures i < |t| && t[i] == x
  {
    assert t[i..i + 1][0] == t[i];
  }

  /** A printed expression sitting anywhere in a token sequence is read back whole, as
      one operand, whatever follows it. */
  lemma {:induction false} ParseUnaryOfTokens(e: Expr, t: seq<Token>, i: nat)
    requires At(t, i, Tokens(e))
    ensures ParseUnary(t, i) == Some((e, i + |Tokens(e)|))
    decreases Size(e), 1
  {
    match e
    case Number(n) => AtOne(t, i, Num(n));
    case Lit(c) => AtOne(t, i, Name(c));
    case Pos(a) => ParseSigned(a, Plus, t, i);
    case Neg(a) => ParseSigned(a, Minus, t, i);
    case Add(a, b) => ParseBinary(a, b, Plus, t, i);
    case Sub(a, b) => ParseBinary(a, b, Minus, t, i);
  }

  // One step of the parser each.

  lemma StepSign(t: seq<Token>, i: nat, op: Token, a: Expr, j: nat)
    requires i < |t| && t[i] == op && (op == Plus || op == Minus)
    requires ParseUnary(t, i + 1) == Some((a, j))
    ensures ParseUnary(t, i) == Some((if op == Plus then Pos(a) else Neg(a), j))
  {
  }

  lemma StepParen(t: seq<Token>, i: nat, e: Expr, j: nat)
    requires i < |t| && t[i] == LParen
    requires ParseExpr(t, i + 1) == Some((e, j)) && j < |t| && t[j] == RParen
    ensures ParseUnary(t, i) == Some((e, j + 1))
  {
  }

  lemma StepExpr(t: seq<Token>, i: nat, e: Expr, j: nat)
    requires i <= |t| && ParseUnary(t, i) == Some((e, j))
    ensures ParseExpr(t, i) == ParseTail(t, j, e)
  {
  }

  lemma StepTail(t: seq<Token>, j: nat, left: Expr, op: Token, b: Expr, k: nat)
    requires j < |t| && t[j] == op && (op == Plus || op == Minus)
    requires ParseUnary(t, j + 1) == Some((b, k))
    ensures ParseTail(t, j, left) == ParseTail(t, k, if op == Plus then Add(left, b) else Sub(left, b))
  {
  }

  lemma StepStop(t: seq<Token>, j: nat, left: Expr)
    requires j < |t| && t[j] == RParen
    ensures ParseTail(t, j, left) == Some((left, j))
  {
  }

  lemma {:induction false} ParseSigned(a: Expr, op: Token, t: seq<Token>, i: nat)
    requires op == Plus || op == Minus
    requires At(t, i, [LParen, op] + Tokens(a) + [RParen])
    ensures ParseUnary(t, i) ==
      Some((if op == Plus then Pos(a) else Neg(a), i + |Tokens(a)| + 3))
    decreases Size(a), 2
  {
    var m := |Tokens(a)|;
    var e := if op == Plus then Pos(a) else Neg(a);
    SignedLayout(t, i, op, Tokens(a));
    ParseUnaryOfTokens(a, t, i + 2);
    StepSign(t, i + 1, op, a, i + 2 + m);
    StepExpr(t, i + 1, e, i + 2 + m);
    StepStop(t, i + 2 + m, e);
    StepParen(t, i, e, i + 2 + m);
  }

  /** Where the pieces of a printed signed expression lie. */
  lemma SignedLayout(t: seq<Token>, i: nat, op: Token, ta: seq<Token>)
    requires At(t, i, [LParen, op] + ta + [RParen])
    ensures i + |ta| + 3 <= |t|
    ensures t[i] == LParen && t[i + 1] == op && At(t, i + 2, ta) && t[i + 2 + |ta|] == RParen
  {
    AtSplit(t, i, [LParen, op] + ta, [RParen]);
    AtSplit(t, i, [LParen, op], ta);
    AtSplit(t, i, [LParen], [op]);
    AtOne(t, i, LParen);
    AtOne(t, i + 1, op);
    AtOne(t, i + 2 + |ta|, RParen);
  }

  /** Where the pieces of a printed binary expression lie. */
  lemma BinaryLayout(t: seq<Token>, i: nat, ta: seq<Token>, op: Token, tb: seq<Token>)
    requires At(t, i, [LParen] + ta + [op] + tb + [RParen])
    ensures i + |ta| + |tb| + 3 <= |t|
    ensures t[i] == LParen && At(t, i + 1, ta) && t[i + 1 + |ta|] == op
    ensures At(t, i + 2 + |ta|, tb) && t[i + 2 + |ta| + |tb|] == RParen
  {
    AtSplit(t, i, [LParen] + ta + [op] + tb, [RParen]);
    AtSplit(t, i, [LParen] + ta + [op], tb);
    AtSplit(t, i, [LParen] + ta, [op]);
    AtSplit(t, i, [LParen], ta);
    AtOne(t, i, LParen);
    AtOne(t, i + 1 + |ta|, op);
    AtOne(t, i + 2 + |ta| + |tb|, RParen);
  }

  lemma {:induction false} ParseBinary(a: Expr, b: Expr, op: Token, t: seq<Token>, i: nat)
    requires op == Plus || op == Minus
    requires At(t, i, [LParen] + Tokens(a) + [op] + Tokens(b) + [RParen])
    ensures ParseUnary(t, i) ==
      Some((if op == Plus then Add(a, b) else Sub(a, b), i + |Tokens(a)| + |Tokens(b)| + 3))
    decreases Size(a) + Size(b), 2
  {
    var ma, mb := |Tokens(a)|, |Tokens(b)|;
    var e := if op == Plus then Add(a, b) else Sub(a, b);
    var k := i + 2 + ma + mb;
    BinaryLayout(t, i, Tokens(a), op, Tokens(b));
    BinaryOperands(a, b, op, t, i, i + 1 + ma, k);
    StepStop(t, k, e);
    StepParen(t, i, e, k);
  }

  /** Inside the parentheses of a printed binary expression, both operands are read and
      the operator between them at j combines them; the second operand ends at k. */
  lemma {:induction false} BinaryOperands(a: Expr, b: Expr, op: Token, t: seq<Token>, i: nat, j: nat, k: nat)
    requires op == Plus || op == Minus
    requires j == i + 1 + |Tokens(a)| && k == j + 1 + |Tokens(b)| && k <= |t|
    requires At(t, i + 1, Tokens(a)) && t[j] == op && At(t, j + 1, Tokens(b))
    ensures ParseExpr(t, i + 1) == ParseTail(t, k, if op == Plus then Add(a, b) else Sub(a, b))
    decreases Size(a) + Size(b), 1
  {
    LeftOperand(a, t, i + 1, j, Size(a) + Size(b));
    RightOperand(a, b, op, t, j, k);
  }

  lemma {:induction false} LeftOperand(a: Expr, t: seq<Token>, i: nat, j: nat, bound: nat)
    requires j == i + |Tokens(a)| && j <= |t| && At(t, i, Tokens(a)) && Size(a) < bound
    ensures ParseExpr(t, i) == ParseTail(t, j, a)
    decreases bound, 0
  {
    ParseUnaryOfTokens(a, t, i);
    StepExpr(t, i, a, j);
  }

  lemma {:induction false} RightOperand(a: Expr, b: Expr, op: Token, t: seq<Token>, j: nat, k: nat)
    requires op == Plus || op == Minus
    requires k == j + 1 + |Tokens(b)| && k <= |t| && t[j] == op && At(t, j + 1, Tokens(b))
    ensures ParseTail(t, j, a) == ParseTail(t, k, if op == Plus then Add(a, b) else Sub(a, b))
    decreases Size(a) + Size(b), 0
  {
    ParseUnaryOfTokens(b, t, j + 1);
    StepTail(t, j, a, op, b, k);
  }

  /** The parser inverts the token printer. */
  lemma ParseTokens(e: Expr)
    ensures Parse(Tokens(e)) == Some(e)
  {
    var t := Tokens(e);
    assert t[0..|t|] == t;
    ParseUnaryOfTokens(e, t, 0);
    assert ParseTail(t, |t|, e) == Some((e, |t|));
  }

  /** A run of digits followed by a non-digit is read whole. */
  lemma {:induction false} DigitRunOf(a: string, rest: string)
    requires AllDigits(a)
    requires rest == [] || !IsDigit(rest[0])
    ensures DigitRun(a + rest) == |a|
  {
    if a != [] {
      assert (a + rest)[1..] == a[1..] + rest;
      DigitRunOf(a[1..], rest);
    }
  }

  /** A run of identifier characters followed by another character is read whole. */
  lemma {:induction false} IdentRunOf(a: string, rest: string)
    requires forall i :: 0 <= i < |a| ==> IsIdentChar(a[i])
    requires rest == [] || !IsIdentChar(rest[0])
    ensures IdentRun(a + rest) == |a|
  {
    if a != [] {
      assert (a + rest)[1..] == a[1..] + rest;
      IdentRunOf(a[1..], rest);
    }
  }

  // One step of the tokenizer each.

  lemma TokenizeToken(s: string, t: Token, k: nat)
    requires s != [] && NextLexeme(s) == Some((Tok(t), k))
    ensures Tokenize(s) == Cons(t, Tokenize(s[k..]))
  {
  }

  lemma TokenizeSingle(c: char, t: Token, rest: string)
    requires (c == '+' && t == Plus) || (c == '-' && t == Minus)
      || (c == '(' && t == LParen) || (c == ')' && t == RParen)
    ensures Tokenize([c] + rest) == Cons(t, Tokenize(rest))
  {
    assert ([c] + rest)[1..] == rest;
    TokenizeToken([c] + rest, t, 1);
  }

  lemma TokenizeBlank(c: char, rest: string)
    requires IsBlank(c)
    ensures Tokenize([c] + rest) == Tokenize(rest)
  {
    assert ([c] + rest)[1..] == rest;
  }

  lemma TokenizeNumber(n: nat, rest: string)
    requires rest == [] || !IsIdentChar(rest[0])
    ensures Tokenize(NatToString(n) + rest) == Cons(Num(n), Tokenize(rest))
  {
    var lit := NatToString(n);
    var s := lit + rest;
    assert NextLexeme(s) == Some((Tok(Num(n)), |lit|)) by {
      DigitRunOf(lit, rest);
      assert s[..|lit|] == lit;
      NatToStringRoundTrip(n);
      assert s[0] == lit[0];
      assert ValidDecimal(lit) by {
        if lit[0] == '0' { assert n == 0 && lit == "0"; }
      }
    }
    assert s[|lit|..] == rest;
    TokenizeToken(s, Num(n), |lit|);
  }

  lemma TokenizeConstant(c: Constant, rest: string)
    requires rest == [] || !IsIdentChar(rest[0])
    ensures Tokenize(ConstantName(c) + rest) == Cons(Name(c), Tokenize(rest))
  {
    var name := ConstantName(c);
    var s := name + rest;
    assert NextLexeme(s) == Some((Tok(Name(c)), |name|)) by {
      IdentRunOf(name, rest);
      assert s[..|name|] == name;
      assert s[0] == name[0];
    }
    assert s[|name|..] == rest;
    TokenizeToken(s, Name(c), |name|);
  }

  /** The characters a token is written with. */
  function TokenText(t: Token): (s: string)
    ensures |s| >= 1 && forall i :: 0 <= i < |s| ==> !IsSpace(s[i])
  {
    match t
    case Num(n) => NatToString(n)
    case Name(c) => ConstantName(c)
    case Plus => "+"
    case Minus => "-"
    case LParen => "("
    case RParen => ")"
  }

  /** Tokens written out one after another, a blank between each two. */
  function Untokenize(ts: seq<Token>): (s: string)
    ensures ts != [] ==> |s| >= 1 && !IsSpace(s[0]) && !IsSpace(s[|s| - 1])
  {
    if ts == [] then ""
    else if |ts| == 1 then TokenText(ts[0])
    else TokenText(ts[0]) + " " + Untokenize(ts[1..])
  }

  lemma TokenizeTokenText(t: Token, rest: string)
    requires rest == [] || !IsIdentChar(rest[0])
    ensures Tokenize(TokenText(t) + rest) == Cons(t, Tokenize(rest))
  {
    match t
    case Num(n) => TokenizeNumber(n, rest);
    case Name(c) => TokenizeConstant(c, rest);
    case Plus => TokenizeSingle('+', Plus, rest);
    case Minus => TokenizeSingle('-', Minus, rest);
    case LParen => TokenizeSingle('(', LParen, rest);
    case RParen => TokenizeSingle(')', RParen, rest);
  }

  /** The tokenizer inverts writing tokens out. */
  lemma {:induction false} TokenizeUntokenize(ts: seq<Token>)
    ensures Tokenize(Untokenize(ts)) == Some(ts)
  {
    if |ts| == 1 {
      TokenizeOne(ts);
    } else if |ts| > 1 {
      TokenizeUntokenize(ts[1..]);
      TokenizeCons(ts);
    }
  }

  /** One token reads back from its text. */
  lemma {:induction false} TokenizeOne(ts: seq<Token>)
    requires |ts| == 1
    ensures Tokenize(Untokenize(ts)) == Some(ts)
  {
    TokenizeTokenText(ts[0], []);
    assert TokenText(ts[0]) + [] == TokenText(ts[0]);
    var none: seq<Token> := [];
    assert Tokenize([]) == Some(none) && [ts[0]] + none == ts;
  }

  /** A token, a blank and tokens that read back read back as a whole. */
  lemma {:induction false} TokenizeCons(ts: seq<Token>)
    requires |ts| > 1 && Tokenize(Untokenize(ts[1..])) == Some(ts[1..])
    ensures Tokenize(Untokenize(ts)) == Some(ts)
  {
    var later := Untokenize(ts[1..]);
    assert Untokenize(ts) == TokenText(ts[0]) + ([' '] + later);
    TokenizeBlank(' ', later);
    assert Tokenize([' '] + later) == Some(ts[1..]);
    TokenizeTokenText(ts[0], [' '] + later);
    assert [ts[0]] + ts[1..] == ts;
  }


  /** Text that starts and ends with a non-blank character is its own strip. */
  lemma StripUnchanged(s: string)
    requires s != [] && !IsSpace(s[0]) && !IsSpace(s[|s| - 1])
    ensures Strip(s) == s
  {
  }

  /** The evaluator agrees with the reference semantics on every expression written out
      as its tokens. */
  lemma EvalUntokenize(e: Expr)
    ensures Eval(Untokenize(Tokens(e))) == Denote(e)
  {
    var t := Tokens(e);
    var s := Untokenize(t);
    StripUnchanged(s);
    TokenizeUntokenize(t);
    ParseTokens(e);
    EvalSteps(s, t, e);
  }

  /** `simple_eval(str(i)) == i`: the decimal text the source writes back evaluates to
      the same integer. */
  lemma EvalIntToString(i: int)
    ensures Eval(IntToString(i)) == Some(IntV(i))
  {
    if i >= 0 {
      EvalNatToString(i);
    } else {
      EvalNegative(i);
    }
  }

  /** The rendering of a natural number evaluates to it. */
  lemma EvalNatToString(i: int)
    requires i >= 0
    ensures Eval(IntToString(i)) == Some(IntV(i))
  {
    var n: nat := i;
    assert IntToString(i) == NatToString(n);
    EvalNumeral(n, IntToString(i));
  }

  lemma EvalNumeral(n: nat, s: string)
    requires s == NatToString(n)
    ensures Eval(s) == Some(IntV(n))
  {
    assert s[0] == s[0] && s[|s| - 1] == s[|s| - 1];
    StripUnchanged(s);
    TokenizeNumber(n, []);
    assert s + [] == s;
    var none: seq<Token> := [];
    assert Tokenize([]) == Some(none) && [Num(n)] + none == [Num(n)];
    EvalNumberTokens(n, s);
  }

  /** A text already stripped that reads as one number evaluates to it. */
  lemma EvalNumberTokens(n: nat, s: string)
    requires Strip(s) == s && Tokenize(s) == Some([Num(n)])
    ensures Eval(s) == Some(IntV(n))
  {
    var t := [Num(n)];
    ParseTokens(Number(n));
    assert Tokens(Number(n)) == t;
    DenoteNumber(n);
    EvalSteps(s, t, Number(n));
  }

  lemma DenoteNumber(n: nat)
    ensures Denote(Number(n)) == Some(IntV(n))
  {
  }

  /** The rendering of a negative number evaluates to it. */
  lemma EvalNegative(i: int)
    requires i < 0
    ensures Eval(IntToString(i)) == Some(IntV(i))
  {
    var n: nat := -i;
    assert IntToString(i) == "-" + NatToString(n);
    StripNegative(n, IntToString(i));
    TokenizeNegative(n, IntToString(i));
    EvalNegativeTokens(n, IntToString(i));
  }

  /** A text already stripped that reads as a minus sign and a number evaluates to the
      negated number. */
  lemma EvalNegativeTokens(n: nat, s: string)
    requires Strip(s) == s && Tokenize(s) == Some([Minus, Num(n)])
    ensures Eval(s) == Some(IntV(-(n as int)))
  {
    var t := [Minus, Num(n)];
    ParseNegative(n, t);
    DenoteNegative(n);
    EvalSteps(s, t, Neg(Number(n)));
  }

  lemma DenoteNegative(n: nat)
    ensures Denote(Neg(Number(n))) == Some(IntV(-(n as int)))
  {
  }

  /** The rendering of a negative number reads as a minus sign and the number. */
  lemma TokenizeNegative(n: nat, s: string)
    requires s == "-" + NatToString(n)
    ensures Tokenize(s) == Some([Minus, Num(n)])
  {
    var digits := NatToString(n);
    assert s == ['-'] + digits;
    TokenizeSingle('-', Minus, digits);
    TokenizeNumber(n, []);
    assert digits + [] == digits;
    var none: seq<Token> := [];
    assert Tokenize([]) == Some(none) && [Num(n)] + none == [Num(n)];
    assert [Minus] + [Num(n)] == [Minus, Num(n)];
  }

  /** The rendering of a negative number has no blanks to strip. */
  lemma StripNegative(n: nat, s: string)
    requires s == "-" + NatToString(n)
    ensures Strip(s) == s
  {
    var digits := NatToString(n);
    assert s[0] == '-' && s[|s| - 1] == digits[|digits| - 1];
    StripUnchanged(s);
  }

  /** A minus sign before a number is the negation of that number. */
  lemma ParseNegative(n: nat, t: seq<Token>)
    requires t == [Minus, Num(n)]
    ensures Parse(t) == Some(Neg(Number(n)))
  {
    assert ParseUnary(t, 1) == Some((Number(n), 2));
    StepSign(t, 0, Minus, Number(n), 2);
    StepExpr(t, 0, Neg(Number(n)), 2);
    assert ParseTail(t, 2, Neg(Number(n))) == Some((Neg(Number(n)), 2));
  }


  /** Two numbers joined by a binary operator. */
  lemma ParseBinaryOfNumbers(x: nat, op: Token, y: nat, t: seq<Token>)
    requires op == Plus || op == Minus
    requires t == [Num(x), op, Num(y)]
    ensures Parse(t) ==
      Some(if op == Plus then Add(Number(x), Number(y)) else Sub(Number(x), Number(y)))
  {
    var e := if op == Plus then Add(Number(x), Number(y)) else Sub(Number(x), Number(y));
    assert ParseUnary(t, 0) == Some((Number(x), 1));
    assert ParseUnary(t, 2) == Some((Number(y), 3));
    StepExpr(t, 0, Number(x), 1);
    StepTail(t, 1, Number(x), op, Number(y), 3);
    assert ParseTail(t, 3, e) == Some((e, 3));
  }

  /** Evaluation in three steps: strip, tokenize, parse. */
  lemma EvalSteps(s: string, ts: seq<Token>, e: Expr)
    requires Strip(s) == s && Tokenize(s) == Some(ts) && Parse(ts) == Some(e)
    ensures Eval(s) == Denote(e)
  {
  }

  /** The text of a sum of two numbers written with no blanks, like "12+8". */
  function SumText(x: nat, y: nat): string
  {
    NatToString(x) + ['+'] + NatToString(y)
  }

  /** The text of a difference written with blanks around the operator, like "16 - 4". */
  function DifferenceText(x: nat, y: nat): string
  {
    NatToString(x) + [' ', '-', ' '] + NatToString(y)
  }

  lemma SumTextReads(x: nat, y: nat)
    ensures Strip(SumText(x, y)) == SumText(x, y)
    ensures Tokenize(SumText(x, y)) == Some([Num(x), Plus, Num(y)])
  {
    var s := SumText(x, y);
    assert s[|s| - 1] == NatToString(y)[|NatToString(y)| - 1];
    StripUnchanged(s);
    SumTextTokens(x, y);
  }

  lemma SumTextTokens(x: nat, y: nat)
    ensures Tokenize(SumText(x, y)) == Some([Num(x), Plus, Num(y)])
  {
    assert SumText(x, y) == NatToString(x) + (['+'] + NatToString(y));
    TokenizeNumber(x, ['+'] + NatToString(y));
    TokenizeSingle('+', Plus, NatToString(y));
    TokenizeNumber(y, []);
    assert NatToString(y) + [] == NatToString(y);
    var none: seq<Token> := [];
    assert Tokenize([]) == Some(none) && [Num(y)] + none == [Num(y)];
    assert [Num(x)] + ([Plus] + [Num(y)]) == [Num(x), Plus, Num(y)];
  }

  lemma DifferenceTextReads(x: nat, y: nat)
    ensures Strip(DifferenceText(x, y)) == DifferenceText(x, y)
    ensures Tokenize(DifferenceText(x, y)) == Some([Num(x), Minus, Num(y)])
  {
    var ts := [Num(x), Minus, Num(y)];
    assert Untokenize(ts) == DifferenceText(x, y) by {
      assert ts[1..] == [Minus, Num(y)] && ts[1..][1..] == [Num(y)];
      assert Untokenize([Num(y)]) == NatToString(y);
      assert Untokenize(ts[1..]) == "-" + " " + NatToString(y);
      assert Untokenize(ts) == NatToString(x) + " " + ("-" + " " + NatToString(y));
    }
    StripUnchanged(Untokenize(ts));
    TokenizeUntokenize(ts);
  }

  /** Text that reads as two numbers joined by an operator evaluates to their sum or
      difference. */
  lemma EvalBinaryText(s: string, x: nat, op: Token, y: nat)
    requires op == Plus || op == Minus
    requires Strip(s) == s && Tokenize(s) == Some([Num(x), op, Num(y)])
    ensures Eval(s) == Some(IntV(if op == Plus then x + y else x - y))
  {
    var ts := [Num(x), op, Num(y)];
    var e := if op == Plus then Add(Number(x), Number(y)) else Sub(Number(x), Number(y));
    ParseBinaryOfNumbers(x, op, y, ts);
    DenoteOfNumbers(x, op, y);
    EvalSteps(s, ts, e);
  }

  lemma DenoteOfNumbers(x: nat, op: Token, y: nat)
    ensures Denote(if op == Plus then Add(Number(x), Number(y)) else Sub(Number(x), Number(y)))
      == Some(IntV(if op == Plus then x + y else x - y))
  {
  }


  /** A sum of two numbers with no blanks, as in the cell "12+8", evaluates to the sum. */
  lemma EvalSumText(x: nat, y: nat)
    ensures |SumText(x, y)| >= 3 && Eval(SumText(x, y)) == Some(IntV(x + y))
  {
    SumTextReads(x, y);
    EvalBinaryText(SumText(x, y), x, Plus, y);
  }

  /** A difference with blanks, as in the cell "16 - 4", evaluates to the difference. */
  lemma EvalDifferenceText(x: nat, y: nat)
    ensures |DifferenceText(x, y)| >= 5 && Eval(DifferenceText(x, y)) == Some(IntV(x - y))
  {
    DifferenceTextReads(x, y);
    EvalBinaryText(DifferenceText(x, y), x, Minus, y);
  }

  /** "nan" is not one of the predefined names, so reading it raises. */
  lemma EvalNan()
    ensures Eval("nan") == None
  {
    var s := "nan";
    StripUnchanged(s);
    NanUnknown(s);
    UnknownNameRaises(s);
  }

  lemma NanUnknown(s: string)
    requires s == "nan"
    ensures IsIdentStart(s[0]) && IdentRun(s) == |s| && ConstantNamed(s).None?
  {
    assert IdentRun(s[3..]) == 0;
    assert s[2..][1..] == s[3..] && s[1..][1..] == s[2..];
  }

  /** A word that is not a predefined name cannot be tokenized. */
  lemma UnknownNameRaises(s: string)
    requires s != [] && IsIdentStart(s[0]) && IdentRun(s) == |s| && ConstantNamed(s).None?
    ensures Tokenize(s) == None
  {
    assert s[..IdentRun(s)] == s;
    assert NextLexeme(s).None?;
  }

  /** The three predefined names evaluate to their constants. */
  lemma EvalConstantName(c: Constant)
    ensures Eval(ConstantName(c)) == Some(ConstantValue(c))
  {
    var ts := Tokens(Lit(c));
    assert ts == [Name(c)];
    assert Untokenize(ts) == TokenText(Name(c));
    assert TokenText(Name(c)) == ConstantName(c);
    EvalUntokenize(Lit(c));
  }

  /** `simple_eval(str(v)) == v`: whatever an evaluated cell is written back as reads
      back as the same value. */
  lemma EvalDisplay(v: Value)
    ensures Eval(Display(v)) == Some(v)
  {
    match v
    case IntV(i) => EvalIntToString(i);
    case BoolV(b) =>
      var c := if b then TrueConst else FalseConst;
      assert Display(v) == ConstantName(c);
      EvalConstantName(c);
    case NoneV =>
      assert Display(v) == ConstantName(NoneConst);
      EvalConstantName(NoneConst);
  }
}
