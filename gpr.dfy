/** Gene–protein–reaction (GPR) rules and their evaluation on gene values
    as the newer expression profile does it: the rule is parsed into a
    Boolean tree, `and` becomes a sympy `Mul` and `or` an `Add`
    (`Transform.visit_BoolOp`), the policy named by `by` replaces those
    operators, and the result is evaluated after substituting the gene
    values. n-ary `and`/`or` nodes are written as nested binary nodes; every
    operator involved is associative, so the value is the same. */
module Gpr {
  import opened Wrappers
  import Arith

  datatype Rule = Gene(id: string) | And(left: Rule, right: Rule) | Or(left: Rule, right: Rule)

  /** The genes a rule mentions (cobra's `reaction.genes`). */
  function Genes(r: Rule): set<string> {
    match r
    case Gene(g) => {g}
    case And(a, b) => Genes(a) + Genes(b)
    case Or(a, b) => Genes(a) + Genes(b)
  }

  /** The `by` argument: two named policies, anything else leaves the
      raw product/sum in place. */
  datatype Policy = Or2MaxAnd2Min | Or2SumAnd2Min | Unmapped

  function PolicyOf(mapBy: string): (p: Policy)
    ensures p == Or2MaxAnd2Min <==> mapBy == "or2max_and2min"
    ensures p == Or2SumAnd2Min <==> mapBy == "or2sum_and2min"
  {
    if mapBy == "or2max_and2min" then Or2MaxAnd2Min
    else if mapBy == "or2sum_and2min" then Or2SumAnd2Min
    else Unmapped
  }

  /** `Transform().visit(parse_gpr(rule))`: names become symbols, `and`
      a product and `or` a sum. */
  function ToSympy(r: Rule): (e: Arith.Expr)
    ensures Arith.Symbols(e) == Genes(r)
  {
    match r
    case Gene(g) => Arith.Sym(g)
    case And(a, b) => Arith.Mul(ToSympy(a), ToSympy(b))
    case Or(a, b) => Arith.Add(ToSympy(a), ToSympy(b))
  }

  /** The policy's operator replacement: `or2max_and2min` is
      `replace(Mul, Min).replace(Add, Max)`, `or2sum_and2min` only
      `replace(Mul, Min)`. */
  function ApplyPolicy(e: Arith.Expr, p: Policy): (r: Arith.Expr)
    ensures Arith.Symbols(r) == Arith.Symbols(e)
  {
    match p
    case Or2MaxAnd2Min => Arith.ReplaceAdd(Arith.ReplaceMul(e, false), true)
    case Or2SumAnd2Min => Arith.ReplaceMul(e, false)
    case Unmapped => e
  }

  /** `_map_gene_to_rxn(reaction, gene_values, by)`: numeric exactly when
      every gene of the rule has a value. */
  function MapGeneToRxn(r: Rule, mapBy: string, values: map<string, real>): (v: Option<real>)
    ensures v.Some? <==> Genes(r) <= values.Keys
  {
    Arith.Eval(ApplyPolicy(ToSympy(r), PolicyOf(mapBy)), values)
  }

  function MinR(x: real, y: real): real { if x <= y then x else y }
  function MaxR(x: real, y: real): real { if x >= y then x else y }

  /** The documented meaning of each policy, as a direct fold over the rule:
      a complex (`and`) takes the minimum, isozymes (`or`) the maximum or
      the sum; without a policy, product and sum. */
  function Activity(r: Rule, p: Policy, values: map<string, real>): real
    requires Genes(r) <= values.Keys
  {
    match r
    case Gene(g) => values[g]
    case And(a, b) =>
      var x, y := Activity(a, p, values), Activity(b, p, values);
      if p == Unmapped then Arith.Times(x, y) else MinR(x, y)
    case Or(a, b) =>
      var x, y := Activity(a, p, values), Activity(b, p, values);
      if p == Or2MaxAnd2Min then MaxR(x, y) else x + y
  }

  lemma ApplyPolicyAnd(a: Rule, b: Rule, p: Policy)
    ensures ApplyPolicy(ToSympy(And(a, b)), p)
         == if p == Unmapped then Arith.Mul(ApplyPolicy(ToSympy(a), p), ApplyPolicy(ToSympy(b), p))
            else Arith.Min(ApplyPolicy(ToSympy(a), p), ApplyPolicy(ToSympy(b), p))
  {
  }

  lemma ApplyPolicyOr(a: Rule, b: Rule, p: Policy)
    ensures ApplyPolicy(ToSympy(Or(a, b)), p)
         == if p == Or2MaxAnd2Min then Arith.Max(ApplyPolicy(ToSympy(a), p), ApplyPolicy(ToSympy(b), p))
            else Arith.Add(ApplyPolicy(ToSympy(a), p), ApplyPolicy(ToSympy(b), p))
  {
  }

  /** The evaluation of an `and` node from the values of its operands. */
  lemma EvalAndOf(e: Arith.Expr, ea: Arith.Expr, eb: Arith.Expr, values: map<string, real>, x: real, y: real, v: real, raw: bool)
    requires raw ==> e == Arith.Mul(ea, eb) && v == Arith.Times(x, y)
    requires !raw ==> e == Arith.Min(ea, eb) && v == MinR(x, y)
    requires Arith.Eval(ea, values) == Some(x) && Arith.Eval(eb, values) == Some(y)
    ensures Arith.Eval(e, values) == Some(v)
  {
  }

  lemma ActivityAnd(a: Rule, b: Rule, p: Policy, values: map<string, real>)
    requires Genes(a) <= values.Keys && Genes(b) <= values.Keys
    ensures p == Unmapped ==> Activity(And(a, b), p, values) == Arith.Times(Activity(a, p, values), Activity(b, p, values))
    ensures p != Unmapped ==> Activity(And(a, b), p, values) == MinR(Activity(a, p, values), Activity(b, p, values))
  {
  }

  lemma PipelineAnd(a: Rule, b: Rule, p: Policy, values: map<string, real>)
    requires Genes(a) <= values.Keys && Genes(b) <= values.Keys
    requires Arith.Eval(ApplyPolicy(ToSympy(a), p), values) == Some(Activity(a, p, values))
    requires Arith.Eval(ApplyPolicy(ToSympy(b), p), values) == Some(Activity(b, p, values))
    ensures Arith.Eval(ApplyPolicy(ToSympy(And(a, b)), p), values) == Some(Activity(And(a, b), p, values))
  {
    ApplyPolicyAnd(a, b, p);
    ActivityAnd(a, b, p, values);
    EvalAndOf(ApplyPolicy(ToSympy(And(a, b)), p), ApplyPolicy(ToSympy(a), p), ApplyPolicy(ToSympy(b), p), values,
              Activity(a, p, values), Activity(b, p, values), Activity(And(a, b), p, values), p == Unmapped);
  }

  /** The evaluation of an `or` node turned into `Max`, from the values of
      its operands. */
  lemma EvalMaxOf(e: Arith.Expr, ea: Arith.Expr, eb: Arith.Expr, values: map<string, real>, x: real, y: real, v: real)
    requires e == Arith.Max(ea, eb) && v == MaxR(x, y)
    requires Arith.Eval(ea, values) == Some(x) && Arith.Eval(eb, values) == Some(y)
    ensures Arith.Eval(e, values) == Some(v)
  {
  }

  /** The same for an `or` node kept as a sum. */
  lemma EvalAddOf(e: Arith.Expr, ea: Arith.Expr, eb: Arith.Expr, values: map<string, real>, x: real, y: real, v: real)
    requires e == Arith.Add(ea, eb) && v == x + y
    requires Arith.Eval(ea, values) == Some(x) && Arith.Eval(eb, values) == Some(y)
    ensures Arith.Eval(e, values) == Some(v)
  {
  }

  lemma ActivityOr(a: Rule, b: Rule, p: Policy, values: map<string, real>)
    requires Genes(a) <= values.Keys && Genes(b) <= values.Keys
    ensures p == Or2MaxAnd2Min ==> Activity(Or(a, b), p, values) == MaxR(Activity(a, p, values), Activity(b, p, values))
    ensures p != Or2MaxAnd2Min ==> Activity(Or(a, b), p, values) == Activity(a, p, values) + Activity(b, p, values)
  {
  }

  lemma PipelineOr(a: Rule, b: Rule, p: Policy, values: map<string, real>)
    requires Genes(a) <= values.Keys && Genes(b) <= values.Keys
    requires Arith.Eval(ApplyPolicy(ToSympy(a), p), values) == Some(Activity(a, p, values))
    requires Arith.Eval(ApplyPolicy(ToSympy(b), p), values) == Some(Activity(b, p, values))
    ensures Arith.Eval(ApplyPolicy(ToSympy(Or(a, b)), p), values) == Some(Activity(Or(a, b), p, values))
  {
    ApplyPolicyOr(a, b, p);
    ActivityOr(a, b, p, values);
    var e, ea, eb := ApplyPolicy(ToSympy(Or(a, b)), p), ApplyPolicy(ToSympy(a), p), ApplyPolicy(ToSympy(b), p);
    var x, y, v := Activity(a, p, values), Activity(b, p, values), Activity(Or(a, b), p, values);
    if p == Or2MaxAnd2Min {
      EvalMaxOf(e, ea, eb, values, x, y, v);
    } else {
      EvalAddOf(e, ea, eb, values, x, y, v);
    }
  }

  lemma {:induction false} PipelineMatchesActivity(r: Rule, p: Policy, values: map<string, real>)
    requires Genes(r) <= values.Keys
    ensures Arith.Eval(ApplyPolicy(ToSympy(r), p), values) == Some(Activity(r, p, values))
  {
    match r
    case Gene(g) =>
    case And(a, b) =>
      PipelineMatchesActivity(a, p, values);
      PipelineMatchesActivity(b, p, values);
      PipelineAnd(a, b, p, values);
    case Or(a, b) =>
      PipelineMatchesActivity(a, p, values);
      PipelineMatchesActivity(b, p, values);
      PipelineOr(a, b, p, values);
  }

  /** The sympy pipeline computes the documented policy. */
  lemma MapGeneToRxnMeaning(r: Rule, mapBy: string, values: map<string, real>)
    requires Genes(r) <= values.Keys
    ensures MapGeneToRxn(r, mapBy, values) == Some(Activity(r, PolicyOf(mapBy), values))
  {
    PipelineMatchesActivity(r, PolicyOf(mapBy), values);
  }

  /** Under `or2max_and2min` the reaction value is the value of one of its
      genes, so it lies between the smallest and the largest of them. */
  lemma {:induction false} MinMaxPicksGene(r: Rule, values: map<string, real>)
    requires Genes(r) <= values.Keys
    ensures exists g :: g in Genes(r) && Activity(r, Or2MaxAnd2Min, values) == values[g]
  {
    match r
    case Gene(g) =>
      assert g in Genes(r);
    case And(a, b) =>
      MinMaxPicksGene(a, values);
      MinMaxPicksGene(b, values);
    case Or(a, b) =>
      MinMaxPicksGene(a, values);
      MinMaxPicksGene(b, values);
  }

  /** Boolean reading of a rule: is the enzyme present when exactly the
      genes in `on` are? */
  predicate Holds(r: Rule, on: set<string>) {
    match r
    case Gene(g) => g in on
    case And(a, b) => Holds(a, on) && Holds(b, on)
    case Or(a, b) => Holds(a, on) || Holds(b, on)
  }

  /** On 0/1 gene values, `or2max_and2min` is the Boolean rule. */
  lemma {:induction false} MinMaxIsBoolean(r: Rule, values: map<string, real>, on: set<string>)
    requires Genes(r) <= values.Keys
    requires forall g :: g in values ==> values[g] == (if g in on then 1.0 else 0.0)
    ensures Activity(r, Or2MaxAnd2Min, values) == if Holds(r, on) then 1.0 else 0.0
  {
    match r
    case Gene(g) =>
    case And(a, b) =>
      MinMaxIsBoolean(a, values, on);
      MinMaxIsBoolean(b, values, on);
    case Or(a, b) =>
      MinMaxIsBoolean(a, values, on);
      MinMaxIsBoolean(b, values, on);
  }

  /** Without a policy, the raw product/sum on 0/1 values is non-zero exactly
      when the Boolean rule holds. */
  lemma {:induction false} RawIsBoolean(r: Rule, values: map<string, real>, on: set<string>)
    requires Genes(r) <= values.Keys
    requires forall g :: g in values ==> values[g] == (if g in on then 1.0 else 0.0)
    ensures Activity(r, Unmapped, values) >= 0.0
    ensures Activity(r, Unmapped, values) != 0.0 <==> Holds(r, on)
  {
    match r
    case Gene(g) =>
    case And(a, b) =>
      RawIsBoolean(a, values, on);
      RawIsBoolean(b, values, on);
      var x, y := Activity(a, Unmapped, values), Activity(b, Unmapped, values);
      assert Arith.Times(x, y) != 0.0 <==> x != 0.0 && y != 0.0;
      assert Arith.Times(x, y) >= 0.0;
    case Or(a, b) =>
      RawIsBoolean(a, values, on);
      RawIsBoolean(b, values, on);
  }

  /** With non-negative gene values the sum policy never gives less than the
      max policy. */
  lemma {:induction false} SumDominatesMax(r: Rule, values: map<string, real>)
    requires Genes(r) <= values.Keys
    requires forall g :: g in values ==> values[g] >= 0.0
    ensures Activity(r, Or2SumAnd2Min, values) >= Activity(r, Or2MaxAnd2Min, values) >= 0.0
  {
    match r
    case Gene(g) =>
    case And(a, b) =>
      SumDominatesMax(a, values);
      SumDominatesMax(b, values);
    case Or(a, b) =>
      SumDominatesMax(a, values);
      SumDominatesMax(b, values);
  }

  /** Raising gene values never lowers an `or2max_and2min` reaction value. */
  lemma {:induction false} MinMaxMonotone(r: Rule, lo: map<string, real>, hi: map<string, real>)
    requires Genes(r) <= lo.Keys && Genes(r) <= hi.Keys
    requires forall g :: g in Genes(r) ==> lo[g] <= hi[g]
    ensures Activity(r, Or2MaxAnd2Min, lo) <= Activity(r, Or2MaxAnd2Min, hi)
  {
    match r
    case Gene(g) =>
    case And(a, b) =>
      MinMaxMonotone(a, lo, hi);
      MinMaxMonotone(b, lo, hi);
    case Or(a, b) =>
      MinMaxMonotone(a, lo, hi);
      MinMaxMonotone(b, lo, hi);
  }
}
