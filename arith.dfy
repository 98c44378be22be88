/** The symbolic arithmetic the GPR evaluators build: sympy expressions
    over gene symbols with `Add`, `Mul`, `Min` and `Max`, their evaluation
    after substituting gene values (`subs(...).evalf()`), and the text
    parser the older evaluators apply to a rewritten rule string (Python
    expression syntax restricted to names, integer literals, `+`, `*` and
    parentheses, with `*` binding tighter than `+`). */
module Arith {
  import opened Wrappers

  datatype Expr =
    | Sym(name: string)
    | Num(value: real)
    | Add(left: Expr, right: Expr)
    | Mul(left: Expr, right: Expr)
    | Min(left: Expr, right: Expr)
    | Max(left: Expr, right: Expr)

  /** The free symbols of an expression. */
  function Symbols(e: Expr): set<string> {
    match e
    case Sym(n) => {n}
    case Num(_) => {}
    case Add(l, r) => Symbols(l) + Symbols(r)
    case Mul(l, r) => Symbols(l) + Symbols(r)
    case Min(l, r) => Symbols(l) + Symbols(r)
    case Max(l, r) => Symbols(l) + Symbols(r)
  }

  /** Real multiplication, named so that products compare syntactically. */
  function Times(x: real, y: real): real {
    x * y
  }

  /** `e.subs(values).evalf()`: a number when every free symbol has a value,
      `None` (a symbolic, non-numeric result) otherwise. */
  function Eval(e: Expr, values: map<string, real>): (r: Option<real>)
    ensures r.Some? <==> Symbols(e) <= values.Keys
  {
    match e
    case Sym(n) => if n in values then Some(values[n]) else None
    case Num(v) => Some(v)
    case Add(l, r) =>
      var a, b := Eval(l, values), Eval(r, values);
      if a.Some? && b.Some? then Some(a.value + b.value) else None
    case Mul(l, r) =>
      var a, b := Eval(l, values), Eval(r, values);
      if a.Some? && b.Some? then Some(Times(a.value, b.value)) else None
    case Min(l, r) =>
      var a, b := Eval(l, values), Eval(r, values);
      if a.Some? && b.Some? then Some(if a.value <= b.value then a.value else b.value) else None
    case Max(l, r) =>
      var a, b := Eval(l, values), Eval(r, values);
      if a.Some? && b.Some? then Some(if a.value >= b.value then a.value else b.value) else None
  }

  /** `expr.replace(Mul, Min)` or `expr.replace(Mul, Max)`. */
  function ReplaceMul(e: Expr, byMax: bool): (r: Expr)
    ensures Symbols(r) == Symbols(e)
  {
    match e
    case Sym(_) => e
    case Num(_) => e
    case Add(l, r) => Add(ReplaceMul(l, byMax), ReplaceMul(r, byMax))
    case Mul(l, r) =>
      if byMax then Max(ReplaceMul(l, byMax), ReplaceMul(r, byMax))
      else Min(ReplaceMul(l, byMax), ReplaceMul(r, byMax))
    case Min(l, r) => Min(ReplaceMul(l, byMax), ReplaceMul(r, byMax))
    case Max(l, r) => Max(ReplaceMul(l, byMax), ReplaceMul(r, byMax))
  }

  /** `expr.replace(Add, Max)` or `expr.replace(Add, Min)`. */
  function ReplaceAdd(e: Expr, byMax: bool): (r: Expr)
    ensures Symbols(r) == Symbols(e)
  {
    match e
    case Sym(_) => e
    case Num(_) => e
    case Add(l, r) =>
      if byMax then Max(ReplaceAdd(l, byMax), ReplaceAdd(r, byMax))
      else Min(ReplaceAdd(l, byMax), ReplaceAdd(r, byMax))
    case Mul(l, r) => Mul(ReplaceAdd(l, byMax), ReplaceAdd(r, byMax))
    case Min(l, r) => Min(ReplaceAdd(l, byMax), ReplaceAdd(r, byMax))
    case Max(l, r) => Max(ReplaceAdd(l, byMax), ReplaceAdd(r, byMax))
  }

  // ---------------------------------------------------------------------
  // Lexing Python expression text

  datatype Tok = TId(id: string) | TNum(n: nat) | TPlus | TStar | TOpen | TClose

  predicate IsDigit(c: char) {
    '0' <= c <= '9'
  }

  predicate IdStart(c: char) {
    ('a' <= c <= 'z') || ('A' <= c <= 'Z') || c == '_'
  }

  predicate IdChar(c: char) {
    IdStart(c) || IsDigit(c)
  }

  /** A Python name: the only text the lexer reads as one `TId`. */
  predicate IsName(s: string) {
    |s| > 0 && IdStart(s[0]) && forall k :: 0 <= k < |s| ==> IdChar(s[k])
  }

  /** Length of the leading run of characters satisfying `IdChar` (or
      `IsDigit` when `digits` is set). */
  function Run(s: string, digits: bool): (n: nat)
    ensures n <= |s|
    ensures forall k :: 0 <= k < n ==> (if digits then IsDigit(s[k]) else IdChar(s[k]))
    ensures n < |s| ==> !(if digits then IsDigit(s[n]) else IdChar(s[n]))
  {
    if s == [] || !(if digits then IsDigit(s[0]) else IdChar(s[0])) then 0
    else
      var m := Run(s[1..], digits);
      assert forall k :: 1 <= k <= m ==> s[k] == s[1..][k - 1];
      1 + m
  }

  function DigitsValue(s: string): nat
    requires forall k :: 0 <= k < |s| ==> IsDigit(s[k])
  {
    if s == [] then 0
    else
      assert IsDigit(s[|s| - 1]);
      DigitsValue(s[..|s| - 1]) * 10 + (s[|s| - 1] as int - '0' as int)
  }

  function Cons(t: Tok, r: Result<seq<Tok>>): Result<seq<Tok>> {
    if r.Ok? then Ok([t] + r.value) else r
  }

  /** The white space the lexer skips between tokens. */
  predicate Blank(c: char) {
    c == ' ' || c == '\t' || c == '\n' || c == '\r'
  }

  /** Python's tokenizer, restricted to the characters a rewritten rule
      holds; any other character is a syntax error. */
  function Lex(s: string): Result<seq<Tok>>
    decreases |s|
  {
    if s == [] then Ok([])
    else if Blank(s[0]) then Lex(s[1..])
    else if s[0] == '(' then Cons(TOpen, Lex(s[1..]))
    else if s[0] == ')' then Cons(TClose, Lex(s[1..]))
    else if s[0] == '+' then Cons(TPlus, Lex(s[1..]))
    else if s[0] == '*' then Cons(TStar, Lex(s[1..]))
    else if IdStart(s[0]) then
      var n := Run(s, false);
      Cons(TId(s[..n]), Lex(s[n..]))
    else if IsDigit(s[0]) then
      var n := Run(s, true);
      Cons(TNum(DigitsValue(s[..n])), Lex(s[n..]))
    else Err(SyntaxError)
  }

  /** Two texts meet at a token boundary: they cannot glue two name or
      number characters together. */
  predicate Boundary(a: string, b: string) {
    a == [] || b == [] || !IdChar(a[|a| - 1]) || !IdChar(b[0])
  }

  lemma RunConcat(a: string, b: string, digits: bool)
    requires Boundary(a, b)
    requires a != [] && (if digits then IsDigit(a[0]) else IdChar(a[0]))
    ensures Run(a + b, digits) == Run(a, digits)
    decreases |a|
  {
    if |a| > 1 && (if digits then IsDigit(a[1]) else IdChar(a[1])) {
      assert (a + b)[1..] == a[1..] + b;
      RunConcat(a[1..], b, digits);
    } else if |a| == 1 {
      assert (a + b)[1..] == b;
    } else {
      assert (a + b)[1..] == a[1..] + b;
    }
  }

  /** Lexing distributes over a concatenation at a token boundary. */
  lemma {:induction false} LexConcat(a: string, b: string)
    requires Boundary(a, b)
    requires Lex(a).Ok? && Lex(b).Ok?
    ensures Lex(a + b) == Ok(Lex(a).value + Lex(b).value)
    decreases |a|, 1
  {
    if a == [] {
      assert a + b == b;
      assert Lex(a).value + Lex(b).value == Lex(b).value;
    } else if IdStart(a[0]) || IsDigit(a[0]) {
      LexConcatRun(a, b);
    } else {
      LexConcatChar(a, b);
    }
  }

  /** The token a name or number run produces. */
  function RunToken(s: string): Tok
    requires s != [] && (IdStart(s[0]) || IsDigit(s[0]))
  {
    if IdStart(s[0]) then TId(s[..Run(s, false)])
    else TNum(DigitsValue(s[..Run(s, true)]))
  }

  function RunLength(s: string): (n: nat)
    requires s != [] && (IdStart(s[0]) || IsDigit(s[0]))
    ensures 0 < n <= |s|
  {
    Run(s, !IdStart(s[0]))
  }

  lemma LexRun(s: string)
    requires s != [] && (IdStart(s[0]) || IsDigit(s[0]))
    ensures Lex(s) == Cons(RunToken(s), Lex(s[RunLength(s)..]))
  {
    assert !Blank(s[0]);
  }

  lemma {:induction false} LexConcatRun(a: string, b: string)
    requires Boundary(a, b)
    requires Lex(a).Ok? && Lex(b).Ok?
    requires a != [] && (IdStart(a[0]) || IsDigit(a[0]))
    ensures Lex(a + b) == Ok(Lex(a).value + Lex(b).value)
    decreases |a|, 0
  {
    var n := RunLength(a);
    RunPrefix(a, b);
    LexRun(a);
    LexRun(a + b);
    BoundarySuffix(a, b, n);
    LexConcat(a[n..], b);
    ConsAppend(RunToken(a), Lex(a[n..]), Lex(b), Lex(a[n..] + b));
  }

  /** The leading run of `a + b` is the leading run of `a`. */
  lemma RunPrefix(a: string, b: string)
    requires Boundary(a, b)
    requires a != [] && (IdStart(a[0]) || IsDigit(a[0]))
    ensures RunLength(a + b) == RunLength(a)
    ensures RunToken(a + b) == RunToken(a)
    ensures (a + b)[RunLength(a)..] == a[RunLength(a)..] + b
  {
    var s := a + b;
    assert s[0] == a[0];
    RunConcat(a, b, !IdStart(a[0]));
    var n := RunLength(a);
    assert s[..n] == a[..n];
  }

  lemma ConsAppend(t: Tok, x: Result<seq<Tok>>, y: Result<seq<Tok>>, z: Result<seq<Tok>>)
    requires x.Ok? && y.Ok? && z == Ok(x.value + y.value)
    ensures Cons(t, z) == Ok(Cons(t, x).value + y.value)
  {
    assert [t] + (x.value + y.value) == ([t] + x.value) + y.value;
  }

  lemma BoundarySuffix(a: string, b: string, k: nat)
    requires k <= |a| && Boundary(a, b)
    ensures Boundary(a[k..], b)
  {
    if k < |a| {
      assert a[k..][|a[k..]| - 1] == a[|a| - 1];
    }
  }

  lemma {:induction false} LexConcatChar(a: string, b: string)
    requires Boundary(a, b)
    requires Lex(a).Ok? && Lex(b).Ok?
    requires a != [] && !IdStart(a[0]) && !IsDigit(a[0])
    ensures Lex(a + b) == Ok(Lex(a).value + Lex(b).value)
    decreases |a|, 0
  {
    var s := a + b;
    assert s[0] == a[0];
    assert s[1..] == a[1..] + b;
    if Blank(a[0]) {
      assert Lex(a) == Lex(a[1..]) && Lex(s) == Lex(s[1..]);
      BoundarySuffix(a, b, 1);
      LexConcat(a[1..], b);
    } else {
      var t := if a[0] == '(' then TOpen else if a[0] == ')' then TClose
               else if a[0] == '+' then TPlus else TStar;
      assert Lex(a) == Cons(t, Lex(a[1..]));
      assert Lex(s) == Cons(t, Lex(s[1..]));
      BoundarySuffix(a, b, 1);
      LexConcat(a[1..], b);
      ConsAppend(t, Lex(a[1..]), Lex(b), Lex(a[1..] + b));
    }
  }

  lemma LexName(s: string)
    requires IsName(s)
    ensures Lex(s) == Ok([TId(s)])
  {
    var n := Run(s, false);
    assert n == |s|;
    assert s[..n] == s;
    assert s[n..] == [];
    assert !Blank(s[0]);
    assert Lex(s[n..]) == Ok([]);
    assert [TId(s)] + [] == [TId(s)];
    assert Lex(s) == Cons(TId(s[..n]), Lex(s[n..]));
  }

  // ---------------------------------------------------------------------
  // Parsing tokens with Python precedence

  datatype Parsed = Parsed(e: Expr, rest: seq<Tok>)

  /** sum := term ('+' term)* */
  function ParseSum(ts: seq<Tok>): (r: Result<Parsed>)
    ensures r.Ok? ==> |r.value.rest| < |ts|
    decreases |ts|, 3
  {
    var t := ParseTerm(ts);
    if t.Err? then Err(t.error) else SumTail(t.value.e, t.value.rest)
  }

  function SumTail(acc: Expr, ts: seq<Tok>): (r: Result<Parsed>)
    ensures r.Ok? ==> |r.value.rest| <= |ts|
    decreases |ts|, 0
  {
    if ts != [] && ts[0] == TPlus then
      var t := ParseTerm(ts[1..]);
      if t.Err? then Err(t.error) else SumTail(Add(acc, t.value.e), t.value.rest)
    else Ok(Parsed(acc, ts))
  }

  /** term := atom ('*' atom)* */
  function ParseTerm(ts: seq<Tok>): (r: Result<Parsed>)
    ensures r.Ok? ==> |r.value.rest| < |ts|
    decreases |ts|, 2
  {
    var a := ParseAtom(ts);
    if a.Err? then Err(a.error) else ProdTail(a.value.e, a.value.rest)
  }

  function ProdTail(acc: Expr, ts: seq<Tok>): (r: Result<Parsed>)
    ensures r.Ok? ==> |r.value.rest| <= |ts|
    decreases |ts|, 0
  {
    if ts != [] && ts[0] == TStar then
      var a := ParseAtom(ts[1..]);
      if a.Err? then Err(a.error) else ProdTail(Mul(acc, a.value.e), a.value.rest)
    else Ok(Parsed(acc, ts))
  }

  /** atom := name | number | '(' sum ')' */
  function ParseAtom(ts: seq<Tok>): (r: Result<Parsed>)
    ensures r.Ok? ==> |r.value.rest| < |ts|
    decreases |ts|, 1
  {
    if ts == [] then Err(SyntaxError)
    else match ts[0]
      case TId(n) => Ok(Parsed(Sym(n), ts[1..]))
      case TNum(v) => Ok(Parsed(Num(v as real), ts[1..]))
      case TOpen =>
        var inner := ParseSum(ts[1..]);
        if inner.Err? then Err(inner.error)
        else if inner.value.rest != [] && inner.value.rest[0] == TClose then
          Ok(Parsed(inner.value.e, inner.value.rest[1..]))
        else Err(SyntaxError)
      case _ => Err(SyntaxError)
  }

  /** `parse_expr(text)`: the whole text must form one expression. */
  function Parse(s: string): Result<Expr> {
    var ts := Lex(s);
    if ts.Err? then Err(ts.error)
    else
      var p := ParseSum(ts.value);
      if p.Err? then Err(p.error)
      else if p.value.rest == [] then Ok(p.value.e)
      else Err(SyntaxError)
  }

  // ---------------------------------------------------------------------
  // Printing, the inverse of parsing on sums and products of names

  predicate Printable(e: Expr) {
    match e
    case Sym(n) => IsName(n)
    case Add(l, r) => Printable(l) && Printable(r)
    case Mul(l, r) => Printable(l) && Printable(r)
    case _ => false
  }

  /** Tokens of `e`, with every compound operand in parentheses. */
  function Toks(e: Expr): seq<Tok>
    requires Printable(e)
    decreases e, 0
  {
    match e
    case Sym(n) => [TId(n)]
    case Add(l, r) => Operand(l) + [TPlus] + Operand(r)
    case Mul(l, r) => Operand(l) + [TStar] + Operand(r)
  }

  function Operand(e: Expr): seq<Tok>
    requires Printable(e)
    decreases e, 1
  {
    if e.Sym? then Toks(e) else [TOpen] + Toks(e) + [TClose]
  }

  /** A token that ends an operand: nothing, or a token that is not an
      operator of the level just parsed. */
  predicate EndsOperand(rest: seq<Tok>) {
    rest == [] || (rest[0] != TPlus && rest[0] != TStar)
  }

  lemma ProdTailStop(acc: Expr, ts: seq<Tok>)
    requires ts == [] || ts[0] != TStar
    ensures ProdTail(acc, ts) == Ok(Parsed(acc, ts))
  {
  }

  lemma SumTailStop(acc: Expr, ts: seq<Tok>)
    requires ts == [] || ts[0] != TPlus
    ensures SumTail(acc, ts) == Ok(Parsed(acc, ts))
  {
  }

  lemma ParseTermStep(ts: seq<Tok>, a: Expr, rest: seq<Tok>)
    requires ParseAtom(ts) == Ok(Parsed(a, rest))
    ensures ParseTerm(ts) == ProdTail(a, rest)
  {
  }

  lemma ParseSumStep(ts: seq<Tok>, t: Expr, rest: seq<Tok>)
    requires ParseTerm(ts) == Ok(Parsed(t, rest))
    ensures ParseSum(ts) == SumTail(t, rest)
  {
  }

  lemma SumTailStep(acc: Expr, ts: seq<Tok>, t: Expr, rest: seq<Tok>)
    requires ts != [] && ts[0] == TPlus
    requires ParseTerm(ts[1..]) == Ok(Parsed(t, rest))
    ensures SumTail(acc, ts) == SumTail(Add(acc, t), rest)
  {
  }

  lemma ProdTailStep(acc: Expr, ts: seq<Tok>, a: Expr, rest: seq<Tok>)
    requires ts != [] && ts[0] == TStar
    requires ParseAtom(ts[1..]) == Ok(Parsed(a, rest))
    ensures ProdTail(acc, ts) == ProdTail(Mul(acc, a), rest)
  {
  }

  lemma ParseAtomParen(ts: seq<Tok>, e: Expr, rest: seq<Tok>)
    requires ts != [] && ts[0] == TOpen
    requires ParseSum(ts[1..]) == Ok(Parsed(e, [TClose] + rest))
    ensures ParseAtom(ts) == Ok(Parsed(e, rest))
  {
    assert ([TClose] + rest)[1..] == rest;
  }

  lemma {:induction false} ParseOperand(e: Expr, rest: seq<Tok>)
    requires Printable(e)
    ensures ParseAtom(Operand(e) + rest) == Ok(Parsed(e, rest))
    decreases e, 2
  {
    var ts := Operand(e) + rest;
    if e.Sym? {
      assert Operand(e) == [TId(e.name)];
      assert ts[1..] == rest;
    } else {
      assert ts[1..] == Toks(e) + ([TClose] + rest);
      ParsePrinted(e, [TClose] + rest);
      ParseAtomParen(ts, e, rest);
    }
  }

  /** Parsing the printed tokens of a sum/product gives the expression back
      and leaves the following tokens untouched. */
  lemma {:induction false} ParsePrinted(e: Expr, rest: seq<Tok>)
    requires Printable(e)
    requires EndsOperand(rest)
    ensures ParseSum(Toks(e) + rest) == Ok(Parsed(e, rest))
    decreases e, 1
  {
    match e
    case Sym(n) =>
      var ts := [TId(n)] + rest;
      assert ts[1..] == rest;
      assert ParseAtom(ts) == Ok(Parsed(e, rest));
      ParseTermStep(ts, e, rest);
      ProdTailStop(e, rest);
      ParseSumStep(ts, e, rest);
      SumTailStop(e, rest);
    case Add(l, r) => ParseSumPrinted(l, r, rest);
    case Mul(l, r) => ParseProductPrinted(l, r, rest);
  }

  lemma ToksSplit(e: Expr, rest: seq<Tok>)
    requires (e.Add? || e.Mul?) && Printable(e)
    ensures Toks(e) + rest
         == Operand(e.left) + ([if e.Add? then TPlus else TStar] + (Operand(e.right) + rest))
  {
  }

  lemma {:induction false} ParseSumPrinted(l: Expr, r: Expr, rest: seq<Tok>)
    requires Printable(l) && Printable(r)
    requires EndsOperand(rest)
    ensures ParseSum(Toks(Add(l, r)) + rest) == Ok(Parsed(Add(l, r), rest))
    decreases Add(l, r), 0
  {
    var tail := [TPlus] + (Operand(r) + rest);
    var ts := Operand(l) + tail;
    ToksSplit(Add(l, r), rest);
    ParseOperand(l, tail);
    ParseTermStep(ts, l, tail);
    ProdTailStop(l, tail);
    ParseSumStep(ts, l, tail);
    ParseOperand(r, rest);
    assert tail[1..] == Operand(r) + rest;
    ParseTermStep(tail[1..], r, rest);
    ProdTailStop(r, rest);
    SumTailStep(l, tail, r, rest);
    SumTailStop(Add(l, r), rest);
  }

  lemma {:induction false} ParseProductPrinted(l: Expr, r: Expr, rest: seq<Tok>)
    requires Printable(l) && Printable(r)
    requires EndsOperand(rest)
    ensures ParseSum(Toks(Mul(l, r)) + rest) == Ok(Parsed(Mul(l, r), rest))
    decreases Mul(l, r), 0
  {
    var tail := [TStar] + (Operand(r) + rest);
    var ts := Operand(l) + tail;
    ToksSplit(Mul(l, r), rest);
    ParseOperand(l, tail);
    ParseTermStep(ts, l, tail);
    ParseOperand(r, rest);
    assert tail[1..] == Operand(r) + rest;
    ProdTailStep(l, tail, r, rest);
    ProdTailStop(Mul(l, r), rest);
    ParseSumStep(ts, Mul(l, r), rest);
    SumTailStop(Mul(l, r), rest);
  }
}
