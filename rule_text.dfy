/** Gene rules handled as text, as the older code does: the rule string
    (`gene_reaction_rule`) has its `and`/`or` words rewritten into `*`/`+`
    with `str.replace`, and the result is parsed as a Python expression.

    `Render` is the text of a rule tree in which every compound operand is
    parenthesised. On such a text, and when every gene id is a Python name
    containing neither `and` nor `or`, each rewrite reproduces the tree's
    arithmetic; `Swap` on other texts shows where they part. */
module RuleText {
  import opened Wrappers
  import Text
  import Arith
  import Gpr
  import Dicts
  import Metabolic

  /** The text of a rule with `a` between the operands of an `and` and `o`
      between those of an `or`. */
  function Render(r: Gpr.Rule, a: string, o: string): string
    decreases r, 0
  {
    match r
    case Gene(g) => g
    case And(x, y) => Part(x, a, o) + " " + a + " " + Part(y, a, o)
    case Or(x, y) => Part(x, a, o) + " " + o + " " + Part(y, a, o)
  }

  /** An operand: a gene as it is, a compound rule in parentheses. */
  function Part(r: Gpr.Rule, a: string, o: string): string
    decreases r, 1
  {
    if r.Gene? then Render(r, a, o) else "(" + Render(r, a, o) + ")"
  }

  /** `gene_reaction_rule` of a rule tree. */
  function Show(r: Gpr.Rule): string {
    Render(r, "and", "or")
  }

  predicate Names(r: Gpr.Rule) {
    forall g :: g in Gpr.Genes(r) ==> Arith.IsName(g)
  }

  /** A gene id that survives the rewrite: a Python name that contains
      neither operator word. */
  predicate CleanId(g: string) {
    Arith.IsName(g) && !Text.Contains(g, "and") && !Text.Contains(g, "or")
  }

  predicate Clean(r: Gpr.Rule) {
    forall g :: g in Gpr.Genes(r) ==> CleanId(g)
  }

  /** `rule.replace("and", andTo).replace("or", orTo)`. */
  function Swap(text: string, andTo: string, orTo: string): string {
    Text.Replace(Text.Replace(text, "and", andTo), "or", orTo)
  }

  function OpText(mul: bool): string {
    if mul then "*" else "+"
  }

  function Op(mul: bool): Arith.Tok {
    if mul then Arith.TStar else Arith.TPlus
  }

  /** The sympy tree the rewrite should give: with `andMul`, `and` is a
      product and `or` a sum (the older profile); otherwise the reverse
      (`_cobra_ext`). */
  function Translate(r: Gpr.Rule, andMul: bool): (e: Arith.Expr)
    ensures Arith.Symbols(e) == Gpr.Genes(r)
    ensures Names(r) ==> Arith.Printable(e)
  {
    match r
    case Gene(g) => Arith.Sym(g)
    case And(x, y) =>
      if andMul then Arith.Mul(Translate(x, andMul), Translate(y, andMul))
      else Arith.Add(Translate(x, andMul), Translate(y, andMul))
    case Or(x, y) =>
      if andMul then Arith.Add(Translate(x, andMul), Translate(y, andMul))
      else Arith.Mul(Translate(x, andMul), Translate(y, andMul))
  }

  lemma TranslateToSympy(r: Gpr.Rule)
    ensures Translate(r, true) == Gpr.ToSympy(r)
  {
  }

  // ---------------------------------------------------------------------
  // Replacing operator words in a rendered rule

  /** A pattern made of name characters only (`and`, `or`). */
  predicate Letters(p: string) {
    |p| > 0 && forall k :: 0 <= k < |p| ==> Arith.IdChar(p[k])
  }

  /** A name-character pattern cannot straddle a token boundary. */
  lemma BoundaryNoStraddle(a: string, b: string, p: string)
    requires Letters(p) && Arith.Boundary(a, b)
    ensures Text.NoStraddle(a, b, p)
  {
    forall i | 0 <= i < |a| < i + |p| <= |a| + |b|
      ensures !Text.OccursAt(a + b, p, i)
    {
      var s := a + b;
      assert s[|a| - 1] == a[|a| - 1] && s[|a|] == b[0];
      assert Arith.IdChar(p[|a| - 1 - i]) && Arith.IdChar(p[|a| - i]);
      assert s[i..i + |p|][|a| - 1 - i] == s[|a| - 1];
      assert s[i..i + |p|][|a| - i] == s[|a|];
    }
  }

  lemma Glue(x: string, y: string, p: string, q: string)
    requires Letters(p) && Arith.Boundary(x, y)
    ensures Text.Replace(x + y, p, q) == Text.Replace(x, p, q) + Text.Replace(y, p, q)
  {
    BoundaryNoStraddle(x, y, p);
    Text.ReplaceConcat(x, y, p, q);
  }

  lemma Punct(c: char, p: string, q: string)
    requires Letters(p) && !Arith.IdChar(c)
    ensures Text.Replace([c], p, q) == [c]
  {
    if |p| == 1 {
      assert [c][..1] != p by {
        assert Arith.IdChar(p[0]);
      }
      assert [c][1..] == [];
    }
  }

  /** Replacing a name-character pattern that no gene id contains rewrites
      exactly the operator words. */
  lemma {:induction false} RenderReplace(r: Gpr.Rule, a: string, o: string, p: string, q: string)
    requires Letters(p)
    requires forall g :: g in Gpr.Genes(r) ==> !Text.Contains(g, p)
    ensures Text.Replace(Render(r, a, o), p, q) == Render(r, Text.Replace(a, p, q), Text.Replace(o, p, q))
    decreases r, 0
  {
    var a', o' := Text.Replace(a, p, q), Text.Replace(o, p, q);
    if r.Gene? {
      Text.ReplaceAbsent(r.id, p, q);
    } else {
      var x, y := r.left, r.right;
      var op := if r.And? then a else o;
      var px, py := Part(x, a, o), Part(y, a, o);
      assert Render(r, a, o) == px + " " + op + " " + py;
      PartReplace(x, a, o, p, q);
      PartReplace(y, a, o, p, q);
      Punct(' ', p, q);
      Glue(px + " " + op + " ", py, p, q);
      Glue(px + " " + op, " ", p, q);
      Glue(px + " ", op, p, q);
      Glue(px, " ", p, q);
      assert Render(r, a', o') == Part(x, a', o') + " " + (if r.And? then a' else o') + " " + Part(y, a', o');
    }
  }

  lemma {:induction false} PartReplace(r: Gpr.Rule, a: string, o: string, p: string, q: string)
    requires Letters(p)
    requires forall g :: g in Gpr.Genes(r) ==> !Text.Contains(g, p)
    ensures Text.Replace(Part(r, a, o), p, q) == Part(r, Text.Replace(a, p, q), Text.Replace(o, p, q))
    decreases r, 1
  {
    RenderReplace(r, a, o, p, q);
    if !r.Gene? {
      var s := Render(r, a, o);
      Punct('(', p, q);
      Punct(')', p, q);
      Glue("(" + s, ")", p, q);
      Glue("(", s, p, q);
    }
  }

  /** Both rewrites of the older code turn the words of a clean rule's text
      into the intended operators and touch nothing else. */
  lemma SwapShow(r: Gpr.Rule, m: bool)
    requires Clean(r)
    ensures Swap(Show(r), OpText(m), OpText(!m)) == Render(r, OpText(m), OpText(!m))
  {
    var x, y := OpText(m), OpText(!m);
    assert Letters("and") && Letters("or");
    RenderReplace(r, "and", "or", "and", x);
    assert Text.Replace("and", "and", x) == x by {
      assert "and"[..3] == "and";
      assert "and"[3..] == [];
      assert x + [] == x;
    }
    Text.ReplaceShort("or", "and", x);
    RenderReplace(r, x, "or", "or", y);
    Text.ReplaceShort(x, "or", y);
    assert Text.Replace("or", "or", y) == y by {
      assert "or"[..2] == "or";
      assert "or"[2..] == [];
      assert y + [] == y;
    }
  }

  // ---------------------------------------------------------------------
  // Lexing and parsing a rendered rule

  lemma LexOperator(m: bool)
    ensures Arith.Lex(OpText(m)) == Ok([Op(m)])
  {
    var t := Op(m);
    assert OpText(m)[1..] == [];
    assert !Arith.Blank(OpText(m)[0]);
    assert Arith.Lex(OpText(m)) == Arith.Cons(t, Arith.Lex([]));
    assert [t] + [] == [t];
  }

  lemma LexSpace()
    ensures Arith.Lex(" ") == Ok([])
  {
    assert " "[1..] == [];
  }

  lemma LexParen(open: bool)
    ensures Arith.Lex(if open then "(" else ")") == Ok([if open then Arith.TOpen else Arith.TClose])
  {
    var s := if open then "(" else ")";
    var t := if open then Arith.TOpen else Arith.TClose;
    assert s[1..] == [];
    assert !Arith.Blank(s[0]);
    assert Arith.Lex(s) == Arith.Cons(t, Arith.Lex([]));
    assert [t] + [] == [t];
  }

  lemma {:induction false} LexRender(r: Gpr.Rule, m: bool)
    requires Names(r)
    ensures Arith.Lex(Render(r, OpText(m), OpText(!m))) == Ok(Arith.Toks(Translate(r, m)))
    decreases r, 0
  {
    var a, o := OpText(m), OpText(!m);
    if r.Gene? {
      Arith.LexName(r.id);
    } else {
      var x, y := r.left, r.right;
      var mul := if r.And? then m else !m;
      var op := OpText(mul);
      var px, py := Part(x, a, o), Part(y, a, o);
      assert Render(r, a, o) == px + " " + op + " " + py;
      LexPart(x, m);
      LexPart(y, m);
      LexOperator(mul);
      var tx, ty := Arith.Operand(Translate(x, m)), Arith.Operand(Translate(y, m));
      LexInfix(px, py, op, tx, ty, Op(mul));
      assert Arith.Toks(Translate(r, m)) == tx + [Op(mul)] + ty;
    }
  }

  /** Lexing `x op y` with single spaces around the operator. */
  lemma LexInfix(px: string, py: string, op: string, tx: seq<Arith.Tok>, ty: seq<Arith.Tok>, t: Arith.Tok)
    requires Arith.Lex(px) == Ok(tx) && Arith.Lex(py) == Ok(ty) && Arith.Lex(op) == Ok([t])
    ensures Arith.Lex(px + " " + op + " " + py) == Ok(tx + [t] + ty)
  {
    LexSpace();
    Arith.LexConcat(px, " ");
    assert tx + [] == tx;
    Arith.LexConcat(px + " ", op);
    Arith.LexConcat(px + " " + op, " ");
    assert tx + [t] + [] == tx + [t];
    Arith.LexConcat(px + " " + op + " ", py);
  }

  lemma {:induction false} LexPart(r: Gpr.Rule, m: bool)
    requires Names(r)
    ensures Arith.Lex(Part(r, OpText(m), OpText(!m))) == Ok(Arith.Operand(Translate(r, m)))
    decreases r, 1
  {
    LexRender(r, m);
    if !r.Gene? {
      var s := Render(r, OpText(m), OpText(!m));
      LexParen(true);
      LexParen(false);
      Arith.LexConcat("(", s);
      Arith.LexConcat("(" + s, ")");
    }
  }

  /** `parse_expr` reads a rendered rule back as the intended tree. */
  lemma ParseRender(r: Gpr.Rule, m: bool)
    requires Names(r)
    ensures Arith.Parse(Render(r, OpText(m), OpText(!m))) == Ok(Translate(r, m))
  {
    LexRender(r, m);
    Arith.ParsePrinted(Translate(r, m), []);
    assert Arith.Toks(Translate(r, m)) + [] == Arith.Toks(Translate(r, m));
  }

  // ---------------------------------------------------------------------
  // The evaluators

  /** The older profile's rewrite: `and` → `*`, `or` → `+`, parsed; Python
      precedence then makes `and` bind tighter, as it should. */
  function PythonExpression(text: string): Result<Arith.Expr> {
    Arith.Parse(Swap(text, "*", "+"))
  }

  /** `ExpressionProfile.map_gene_to_rxn` of the older profile: the rewritten
      text is parsed, the policy named by `by` replaces its operators and
      the gene values are substituted. A parse failure is an error; a
      result with a symbol left over is `None`. */
  function TextMapGeneToRxn(text: string, mapBy: string, values: map<string, real>): (v: Result<Option<real>>)
    ensures v.Ok? <==> PythonExpression(text).Ok?
    ensures v.Ok? ==> (v.value.Some? <==> Arith.Symbols(PythonExpression(text).value) <= values.Keys)
  {
    var e := PythonExpression(text);
    if e.Err? then Err(e.error)
    else Ok(Arith.Eval(Gpr.ApplyPolicy(e.value, Gpr.PolicyOf(mapBy)), values))
  }

  /** On the text of a clean rule the text path is the tree path. */
  lemma TextMapGeneToRxnShow(r: Gpr.Rule, mapBy: string, values: map<string, real>)
    requires Clean(r)
    ensures TextMapGeneToRxn(Show(r), mapBy, values) == Ok(Gpr.MapGeneToRxn(r, mapBy, values))
    ensures Gpr.Genes(r) <= values.Keys ==>
      TextMapGeneToRxn(Show(r), mapBy, values) == Ok(Some(Gpr.Activity(r, Gpr.PolicyOf(mapBy), values)))
  {
    SwapShow(r, true);
    ParseRender(r, true);
    TranslateToSympy(r);
    if Gpr.Genes(r) <= values.Keys {
      Gpr.MapGeneToRxnMeaning(r, mapBy, values);
    }
  }

  /** `Reaction.gene_expression`, installed by `_cobra_ext`: `and` → `+`,
      `or` → `*`, parsed. */
  function GeneExpression(rxn: Metabolic.Reaction): Result<Arith.Expr> {
    Arith.Parse(Swap(rxn.gpr, "+", "*"))
  }

  lemma GeneExpressionShow(rxn: Metabolic.Reaction)
    requires rxn.rule.Some? && rxn.gpr == Show(rxn.rule.value) && Clean(rxn.rule.value)
    ensures GeneExpression(rxn) == Ok(Translate(rxn.rule.value, false))
    ensures Arith.Symbols(GeneExpression(rxn).value) == rxn.Genes()
  {
    SwapShow(rxn.rule.value, false);
    ParseRender(rxn.rule.value, false);
  }

  /** `replace(Mul, Max).replace(Add, Min)` then substitution. */
  function MaxMin(e: Arith.Expr, values: map<string, real>): (v: Option<real>)
    ensures v.Some? <==> Arith.Symbols(e) <= values.Keys
  {
    Arith.Eval(Arith.ReplaceAdd(Arith.ReplaceMul(e, true), false), values)
  }

  /** `or2min_and2max` of both `normalization` modules: despite the name,
      the `and` of the text becomes a minimum and the `or` a maximum. */
  function Or2MinAnd2Max(rxn: Metabolic.Reaction, values: map<string, real>): (v: Result<Option<real>>)
    ensures v.Ok? <==> GeneExpression(rxn).Ok?
  {
    var e := GeneExpression(rxn);
    if e.Err? then Err(e.error) else Ok(MaxMin(e.value, values))
  }

  /** `or2min_and2max` of `normalization_functions`: the values are first
      restricted to the reaction's genes, a missing gene counting as 0. */
  function Or2MinAnd2MaxDefaulting(rxn: Metabolic.Reaction, values: map<string, real>): (v: Result<Option<real>>)
    ensures v.Ok? <==> GeneExpression(rxn).Ok?
  {
    Or2MinAnd2Max(rxn, Defaulted(rxn.Genes(), values))
  }

  function Defaulted(genes: set<string>, values: map<string, real>): (d: map<string, real>)
    ensures d.Keys == genes
    ensures forall g :: g in genes ==> d[g] == Dicts.Get(values, g, 0.0)
  {
    map g | g in genes :: Dicts.Get(values, g, 0.0)
  }

  /** With `and` read as a sum and `or` as a product, the max/min
      replacement computes the min/max activity of the tree. */
  lemma {:induction false} MaxMinActivity(r: Gpr.Rule, values: map<string, real>)
    requires Gpr.Genes(r) <= values.Keys
    ensures MaxMin(Translate(r, false), values) == Some(Gpr.Activity(r, Gpr.Or2MaxAnd2Min, values))
  {
    if !r.Gene? {
      var x, y := r.left, r.right;
      MaxMinActivity(x, values);
      MaxMinActivity(y, values);
      MaxMinStep(r, values);
    }
  }

  lemma MaxMinStep(r: Gpr.Rule, values: map<string, real>)
    requires !r.Gene? && Gpr.Genes(r) <= values.Keys
    requires MaxMin(Translate(r.left, false), values) == Some(Gpr.Activity(r.left, Gpr.Or2MaxAnd2Min, values))
    requires MaxMin(Translate(r.right, false), values) == Some(Gpr.Activity(r.right, Gpr.Or2MaxAnd2Min, values))
    ensures MaxMin(Translate(r, false), values) == Some(Gpr.Activity(r, Gpr.Or2MaxAnd2Min, values))
  {
    var ex := Arith.ReplaceAdd(Arith.ReplaceMul(Translate(r.left, false), true), false);
    var ey := Arith.ReplaceAdd(Arith.ReplaceMul(Translate(r.right, false), true), false);
    var u := Gpr.Activity(r.left, Gpr.Or2MaxAnd2Min, values);
    var v := Gpr.Activity(r.right, Gpr.Or2MaxAnd2Min, values);
    if r.And? {
      assert Arith.ReplaceAdd(Arith.ReplaceMul(Translate(r, false), true), false) == Arith.Min(ex, ey);
      assert Gpr.Activity(r, Gpr.Or2MaxAnd2Min, values) == Gpr.MinR(u, v);
    } else {
      assert Arith.ReplaceAdd(Arith.ReplaceMul(Translate(r, false), true), false) == Arith.Max(ex, ey);
      assert Gpr.Activity(r, Gpr.Or2MaxAnd2Min, values) == Gpr.MaxR(u, v);
    }
  }

  /** For a fully parenthesised rule text, both `normalization` evaluators
      give the min over complexes and the max over isozymes. */
  lemma Or2MinAnd2MaxShow(rxn: Metabolic.Reaction, values: map<string, real>)
    requires rxn.rule.Some? && rxn.gpr == Show(rxn.rule.value) && Clean(rxn.rule.value)
    requires rxn.Genes() <= values.Keys
    ensures Or2MinAnd2Max(rxn, values) == Ok(Some(Gpr.Activity(rxn.rule.value, Gpr.Or2MaxAnd2Min, values)))
  {
    GeneExpressionShow(rxn);
    MaxMinActivity(rxn.rule.value, values);
  }

  /** The same for `normalization_functions`, on every gene dictionary: the
      genes missing from it are read as 0. */
  lemma Or2MinAnd2MaxDefaultingShow(rxn: Metabolic.Reaction, values: map<string, real>)
    requires rxn.rule.Some? && rxn.gpr == Show(rxn.rule.value) && Clean(rxn.rule.value)
    ensures Or2MinAnd2MaxDefaulting(rxn, values)
         == Ok(Some(Gpr.Activity(rxn.rule.value, Gpr.Or2MaxAnd2Min, Defaulted(rxn.Genes(), values))))
  {
    Or2MinAnd2MaxShow(rxn, Defaulted(rxn.Genes(), values));
  }

  /** A single-gene rule gives that gene's value, or 0 when it is absent
      from the dictionary. */
  lemma SingleGene(g: string, rxn: Metabolic.Reaction, values: map<string, real>)
    requires rxn.rule == Some(Gpr.Gene(g)) && rxn.gpr == g && Clean(Gpr.Gene(g))
    ensures Or2MinAnd2MaxDefaulting(rxn, values) == Ok(Some(if g in values then values[g] else 0.0))
    ensures g in values ==> Or2MinAnd2Max(rxn, values) == Ok(Some(values[g]))
    ensures g !in values ==> Or2MinAnd2Max(rxn, values) == Ok(None)
  {
    Or2MinAnd2MaxDefaultingShow(rxn, values);
    GeneExpressionShow(rxn);
  }

  // ---------------------------------------------------------------------
  // What the `_cobra_ext` rewrite does to texts that rely on precedence

  /** `x A y O z`: two operators between three names, no parentheses. */
  function Flat(x: string, y: string, z: string, a: string, o: string): string {
    x + " " + a + " " + y + " " + o + " " + z
  }

  lemma FlatReplace(x: string, y: string, z: string, a: string, o: string, p: string, q: string)
    requires Letters(p)
    requires !Text.Contains(x, p) && !Text.Contains(y, p) && !Text.Contains(z, p)
    ensures Text.Replace(Flat(x, y, z, a, o), p, q) == Flat(x, y, z, Text.Replace(a, p, q), Text.Replace(o, p, q))
  {
    Text.ReplaceAbsent(x, p, q);
    Text.ReplaceAbsent(y, p, q);
    Text.ReplaceAbsent(z, p, q);
    Punct(' ', p, q);
    var f1 := x + " ";
    var f2 := f1 + a;
    var f3 := f2 + " ";
    var f4 := f3 + y;
    var f5 := f4 + " ";
    var f6 := f5 + o;
    var f7 := f6 + " ";
    Glue(x, " ", p, q);
    Glue(f1, a, p, q);
    Glue(f2, " ", p, q);
    Glue(f3, y, p, q);
    Glue(f4, " ", p, q);
    Glue(f5, o, p, q);
    Glue(f6, " ", p, q);
    Glue(f7, z, p, q);
  }

  /** Lexing two texts joined by a space lexes each. */
  lemma LexSpaceJoin(u: string, v: string)
    requires Arith.Lex(u).Ok? && Arith.Lex(v).Ok?
    ensures Arith.Lex(u + " " + v) == Ok(Arith.Lex(u).value + Arith.Lex(v).value)
  {
    LexSpace();
    Arith.LexConcat(u, " ");
    var w := u + " ";
    assert w[|w| - 1] == ' ';
    Arith.LexConcat(w, v);
    assert Arith.Lex(u).value + [] == Arith.Lex(u).value;
  }

  lemma FlatLex(x: string, y: string, z: string, a: string, o: string, ta: Arith.Tok, to: Arith.Tok)
    requires Arith.IsName(x) && Arith.IsName(y) && Arith.IsName(z)
    requires Arith.Lex(a) == Ok([ta]) && Arith.Lex(o) == Ok([to])
    ensures Arith.Lex(Flat(x, y, z, a, o)) == Ok([Arith.TId(x), ta, Arith.TId(y), to, Arith.TId(z)])
  {
    Arith.LexName(x);
    Arith.LexName(y);
    Arith.LexName(z);
    var f2 := x + " " + a;
    LexSpaceJoin(x, a);
    var f4 := f2 + " " + y;
    LexSpaceJoin(f2, y);
    var f6 := f4 + " " + o;
    LexSpaceJoin(f4, o);
    LexSpaceJoin(f6, z);
    assert [Arith.TId(x)] + [ta] + [Arith.TId(y)] + [to] + [Arith.TId(z)]
        == [Arith.TId(x), ta, Arith.TId(y), to, Arith.TId(z)];
  }

  /** Both rewrites of the flat text `x and y or z`. */
  lemma FlatSwap(x: string, y: string, z: string, m: bool)
    requires CleanId(x) && CleanId(y) && CleanId(z)
    ensures Arith.Lex(Swap(Flat(x, y, z, "and", "or"), OpText(m), OpText(!m)))
         == Ok([Arith.TId(x), Op(m), Arith.TId(y), Op(!m), Arith.TId(z)])
  {
    var u, v := OpText(m), OpText(!m);
    assert Letters("and") && Letters("or");
    FlatReplace(x, y, z, "and", "or", "and", u);
    assert Text.Replace("and", "and", u) == u by {
      assert "and"[..3] == "and";
      assert "and"[3..] == [];
      assert u + [] == u;
    }
    Text.ReplaceShort("or", "and", u);
    FlatReplace(x, y, z, u, "or", "or", v);
    Text.ReplaceShort(u, "or", v);
    assert Text.Replace("or", "or", v) == v by {
      assert "or"[..2] == "or";
      assert "or"[2..] == [];
      assert v + [] == v;
    }
    LexOperator(m);
    LexOperator(!m);
    FlatLex(x, y, z, u, v, Op(m), Op(!m));
  }

  /** Python precedence on `x t1 y t2 z`. */
  lemma ParseFlat(x: string, y: string, z: string, mul: bool)
    ensures Arith.ParseSum([Arith.TId(x), Op(mul), Arith.TId(y), Op(!mul), Arith.TId(z)])
         == Ok(Arith.Parsed(
              if mul then Arith.Add(Arith.Mul(Arith.Sym(x), Arith.Sym(y)), Arith.Sym(z))
              else Arith.Add(Arith.Sym(x), Arith.Mul(Arith.Sym(y), Arith.Sym(z))), []))
  {
    var ts := [Arith.TId(x), Op(mul), Arith.TId(y), Op(!mul), Arith.TId(z)];
    var t1 := ts[1..];
    var t2 := t1[1..];
    var t3 := t2[1..];
    var t4 := t3[1..];
    assert t4 == [Arith.TId(z)] && t4[1..] == [];
    var sx, sy, sz := Arith.Sym(x), Arith.Sym(y), Arith.Sym(z);
    assert Arith.ParseAtom(ts) == Ok(Arith.Parsed(sx, t1));
    assert Arith.ParseAtom(t2) == Ok(Arith.Parsed(sy, t3));
    assert Arith.ParseAtom(t4) == Ok(Arith.Parsed(sz, []));
    Arith.ProdTailStop(sz, []);
    Arith.SumTailStop(sz, []);
    Arith.ParseTermStep(t4, sz, []);
    if mul {
      Arith.ProdTailStep(sx, t1, sy, t3);
      Arith.ProdTailStop(Arith.Mul(sx, sy), t3);
      Arith.ParseTermStep(ts, sx, t1);
      Arith.ParseSumStep(ts, Arith.Mul(sx, sy), t3);
      Arith.SumTailStep(Arith.Mul(sx, sy), t3, sz, []);
      Arith.SumTailStop(Arith.Add(Arith.Mul(sx, sy), sz), []);
    } else {
      Arith.ProdTailStop(sx, t1);
      Arith.ParseTermStep(ts, sx, t1);
      Arith.ParseSumStep(ts, sx, t1);
      Arith.ParseTermStep(t2, sy, t3);
      Arith.ProdTailStep(sy, t3, sz, []);
      Arith.ProdTailStop(Arith.Mul(sy, sz), []);
      Arith.SumTailStep(sx, t1, Arith.Mul(sy, sz), []);
      Arith.SumTailStop(Arith.Add(sx, Arith.Mul(sy, sz)), []);
    }
  }

  /** A reaction whose rule text is `x and y or z`, which cobra parses as
      `(x and y) or z`. */
  predicate Mixed(rxn: Metabolic.Reaction, x: string, y: string, z: string) {
    CleanId(x) && CleanId(y) && CleanId(z) &&
    rxn.gpr == Flat(x, y, z, "and", "or") &&
    rxn.rule == Some(Gpr.Or(Gpr.And(Gpr.Gene(x), Gpr.Gene(y)), Gpr.Gene(z)))
  }

  lemma MixedGenes(rxn: Metabolic.Reaction, x: string, y: string, z: string)
    requires Mixed(rxn, x, y, z)
    ensures rxn.Genes() == {x, y, z}
  {
    var inner := Gpr.And(Gpr.Gene(x), Gpr.Gene(y));
    assert Gpr.Genes(inner) == {x, y};
    assert rxn.rule.value == Gpr.Or(inner, Gpr.Gene(z));
    assert Gpr.Genes(Gpr.Or(inner, Gpr.Gene(z))) == Gpr.Genes(inner) + {z};
  }

  lemma MixedParse(rxn: Metabolic.Reaction, x: string, y: string, z: string, m: bool)
    requires Mixed(rxn, x, y, z)
    ensures Arith.Parse(Swap(rxn.gpr, OpText(m), OpText(!m)))
         == Ok(if m then Arith.Add(Arith.Mul(Arith.Sym(x), Arith.Sym(y)), Arith.Sym(z))
               else Arith.Add(Arith.Sym(x), Arith.Mul(Arith.Sym(y), Arith.Sym(z))))
  {
    FlatSwap(x, y, z, m);
    ParseFlat(x, y, z, m);
  }

  /** `_cobra_ext` turns `x and y or z` into `x + y*z`: the `or` now binds
      tighter, and the normalisation computes `min(x, max(y, z))` where the
      rule means `max(min(x, y), z)`; with `x = y = 0` and `z = 1` that is 0
      instead of 1. */
  lemma PrecedenceInverted(rxn: Metabolic.Reaction, x: string, y: string, z: string, values: map<string, real>)
    requires Mixed(rxn, x, y, z) && rxn.Genes() <= values.Keys && x in values && y in values && z in values
    ensures Or2MinAnd2Max(rxn, values) == Ok(Some(Gpr.MinR(values[x], Gpr.MaxR(values[y], values[z]))))
    ensures Gpr.Activity(rxn.rule.value, Gpr.Or2MaxAnd2Min, values) == Gpr.MaxR(Gpr.MinR(values[x], values[y]), values[z])
    ensures values[x] == 0.0 && values[y] == 0.0 && values[z] == 1.0 ==>
      Or2MinAnd2Max(rxn, values) == Ok(Some(0.0)) && Gpr.Activity(rxn.rule.value, Gpr.Or2MaxAnd2Min, values) == 1.0
  {
    MixedGenes(rxn, x, y, z);
    MixedParse(rxn, x, y, z, false);
    var sx, sy, sz := Arith.Sym(x), Arith.Sym(y), Arith.Sym(z);
    var e := Arith.Add(sx, Arith.Mul(sy, sz));
    assert Arith.ReplaceMul(Arith.Mul(sy, sz), true) == Arith.Max(sy, sz);
    assert Arith.ReplaceMul(e, true) == Arith.Add(sx, Arith.Max(sy, sz));
    assert Arith.ReplaceAdd(Arith.Max(sy, sz), false) == Arith.Max(sy, sz);
    assert Arith.ReplaceAdd(Arith.ReplaceMul(e, true), false) == Arith.Min(sx, Arith.Max(sy, sz));
    assert GeneExpression(rxn) == Ok(e);
    var u, v, w := values[x], values[y], values[z];
    assert Arith.Eval(Arith.Max(sy, sz), values) == Some(Gpr.MaxR(v, w));
    assert MaxMin(e, values) == Arith.Eval(Arith.Min(sx, Arith.Max(sy, sz)), values);
    assert Arith.Eval(Arith.Min(sx, Arith.Max(sy, sz)), values) == Some(Gpr.MinR(u, Gpr.MaxR(v, w)));
    var inner := Gpr.And(Gpr.Gene(x), Gpr.Gene(y));
    assert Gpr.Activity(inner, Gpr.Or2MaxAnd2Min, values) == Gpr.MinR(u, v);
  }

  /** The corrected `or2min_and2max`: the rewrite that keeps Python's
      precedence (`and` → `*`, `or` → `+`), then the products become
      minima and the sums maxima. */
  function Or2MinAnd2MaxFixed(rxn: Metabolic.Reaction, values: map<string, real>): (v: Result<Option<real>>)
    ensures v.Ok? <==> PythonExpression(rxn.gpr).Ok?
  {
    TextMapGeneToRxn(rxn.gpr, "or2max_and2min", values)
  }

  /** The corrected evaluator reads `x and y or z` as `max(min(x, y), z)`. */
  lemma FixedMixed(rxn: Metabolic.Reaction, x: string, y: string, z: string, values: map<string, real>)
    requires Mixed(rxn, x, y, z) && rxn.Genes() <= values.Keys && x in values && y in values && z in values
    ensures Or2MinAnd2MaxFixed(rxn, values) == Ok(Some(Gpr.Activity(rxn.rule.value, Gpr.Or2MaxAnd2Min, values)))
    ensures Or2MinAnd2MaxFixed(rxn, values) == Ok(Some(Gpr.MaxR(Gpr.MinR(values[x], values[y]), values[z])))
  {
    MixedGenes(rxn, x, y, z);
    MixedParse(rxn, x, y, z, true);
    var sx, sy, sz := Arith.Sym(x), Arith.Sym(y), Arith.Sym(z);
    var e := Arith.Add(Arith.Mul(sx, sy), sz);
    assert Arith.ReplaceMul(Arith.Mul(sx, sy), false) == Arith.Min(sx, sy);
    assert Arith.ReplaceMul(e, false) == Arith.Add(Arith.Min(sx, sy), sz);
    assert Arith.ReplaceAdd(Arith.Min(sx, sy), true) == Arith.Min(sx, sy);
    assert Arith.ReplaceAdd(Arith.Add(Arith.Min(sx, sy), sz), true) == Arith.Max(Arith.Min(sx, sy), sz);
    assert Gpr.ApplyPolicy(e, Gpr.Or2MaxAnd2Min) == Arith.Max(Arith.Min(sx, sy), sz);
    assert PythonExpression(rxn.gpr) == Ok(e);
    var u, v, w := values[x], values[y], values[z];
    assert Arith.Eval(Arith.Min(sx, sy), values) == Some(Gpr.MinR(u, v));
    var inner := Gpr.And(Gpr.Gene(x), Gpr.Gene(y));
    assert Gpr.Activity(inner, Gpr.Or2MaxAnd2Min, values) == Gpr.MinR(u, v);
    assert rxn.rule.value == Gpr.Or(inner, Gpr.Gene(z));
    assert Gpr.Activity(Gpr.Or(inner, Gpr.Gene(z)), Gpr.Or2MaxAnd2Min, values) == Gpr.MaxR(Gpr.MinR(u, v), w);
    assert Arith.Eval(Arith.Max(Arith.Min(sx, sy), sz), values) == Some(Gpr.MaxR(Gpr.MinR(u, v), w));
  }

  /** On every fully parenthesised clean rule the corrected evaluator is
      the min/max activity. */
  lemma FixedShow(rxn: Metabolic.Reaction, values: map<string, real>)
    requires rxn.rule.Some? && rxn.gpr == Show(rxn.rule.value) && Clean(rxn.rule.value)
    requires rxn.Genes() <= values.Keys
    ensures Or2MinAnd2MaxFixed(rxn, values) == Ok(Some(Gpr.Activity(rxn.rule.value, Gpr.Or2MaxAnd2Min, values)))
  {
    TextMapGeneToRxnShow(rxn.rule.value, "or2max_and2min", values);
  }

  /** Every rewrite also hits the words inside gene ids: the gene `cor1`
      becomes `c+1`, which leaves the symbol `c` unvalued, whereas the tree
      evaluation reads the gene's value. */
  lemma GeneIdRewritten()
    ensures TextMapGeneToRxn("cor1", "or2max_and2min", map["cor1" := 5.0]) == Ok(None)
    ensures Gpr.MapGeneToRxn(Gpr.Gene("cor1"), "or2max_and2min", map["cor1" := 5.0]) == Some(5.0)
  {
    var e := Arith.Add(Arith.Sym("c"), Arith.Num(1.0));
    SwapCor1();
    LexC1();
    ParseC1();
    assert PythonExpression("cor1") == Ok(e);
  }

  lemma SwapCor1()
    ensures Swap("cor1", "*", "+") == "c+1"
  {
    var s := "cor1";
    assert Text.Replace(s, "and", "*") == s by {
      assert s[..3] != "and";
      assert s[1..][..3] == "or1";
      assert s[1..][1..] == "r1";
    }
    assert Text.Replace(s, "or", "+") == "c+1" by {
      assert s[..2] != "or";
      assert s[1..][..2] == "or";
      assert s[1..][2..] == "1";
    }
  }

  lemma LexOne()
    ensures Arith.Lex("1") == Ok([Arith.TNum(1)])
  {
    var one := "1";
    assert Arith.Run(one, true) == 1 by {
      assert one[1..] == [];
    }
    assert one[..1] == one && one[1..] == [];
    assert Arith.DigitsValue(one) == 1 by {
      assert one[..0] == [];
    }
    assert !Arith.Blank(one[0]) && !Arith.IdStart(one[0]) && Arith.IsDigit(one[0]);
    assert Arith.Lex(one) == Arith.Cons(Arith.TNum(Arith.DigitsValue(one[..1])), Arith.Lex(one[1..]));
    assert [Arith.TNum(1)] + [] == [Arith.TNum(1)];
  }

  lemma LexC1()
    ensures Arith.Lex("c+1") == Ok([Arith.TId("c"), Arith.TPlus, Arith.TNum(1)])
  {
    LexOne();
    var plus := "+1";
    assert plus[1..] == "1";
    assert plus[0] == '+' && !Arith.Blank(plus[0]);
    assert Arith.Lex(plus) == Arith.Cons(Arith.TPlus, Arith.Lex("1"));
    assert [Arith.TPlus] + [Arith.TNum(1)] == [Arith.TPlus, Arith.TNum(1)];
    Arith.LexName("c");
    assert "c+1" == "c" + plus;
    assert Arith.Boundary("c", plus);
    Arith.LexConcat("c", plus);
    assert [Arith.TId("c")] + [Arith.TPlus, Arith.TNum(1)] == [Arith.TId("c"), Arith.TPlus, Arith.TNum(1)];
  }

  lemma ParseC1()
    ensures Arith.ParseSum([Arith.TId("c"), Arith.TPlus, Arith.TNum(1)])
         == Ok(Arith.Parsed(Arith.Add(Arith.Sym("c"), Arith.Num(1.0)), []))
  {
    var ts := [Arith.TId("c"), Arith.TPlus, Arith.TNum(1)];
    assert ts[1..] == [Arith.TPlus, Arith.TNum(1)];
    assert ts[1..][1..] == [Arith.TNum(1)];
    assert ts[1..][1..][1..] == [];
  }

  // ---------------------------------------------------------------------
  // Metabolite printing

  /** A chemical formula: its text and its element counts. */
  datatype Formula = Formula(text: string, elements: map<string, nat>)

  /** `Metabolite.__str__` as `_cobra_ext` installs it. */
  function MetaboliteString(name: string, formula: Option<Formula>): string {
    if formula.Some? && |formula.value.elements| > 0 then name + " (" + formula.value.text + ")"
    else name
  }

  /** The name always leads, and the formula is shown exactly when there is
      one with at least one element. */
  lemma MetaboliteStringMeaning(name: string, formula: Option<Formula>)
    ensures |name| <= |MetaboliteString(name, formula)|
    ensures MetaboliteString(name, formula)[..|name|] == name
    ensures MetaboliteString(name, formula) != name <==> formula.Some? && |formula.value.elements| > 0
    ensures MetaboliteString(name, formula) != name ==>
      MetaboliteString(name, formula)[|name|..] == " (" + formula.value.text + ")"
  {
  }
}
