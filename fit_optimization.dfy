/** The objective-fitting strategy: a multi-objective heuristic search
    over coefficient vectors for the exchange reactions that cannot take
    up, scored by the sum of the coefficients and by one profile fitness
    per (evaluator, profile) pair. The search itself is not modelled; the
    pieces it is built from are. */
module FitOptimization {
  import opened Wrappers
  import opened Metabolic
  import FitEvaluators
  import FitOperators

  /** The solver answers of the evaluators, one per kind of profile. */
  datatype Oracles = Oracles(genes: FitEvaluators.Essentials, reactions: FitEvaluators.Essentials)

  function OracleOf(f: FitEvaluators.Evaluator, oracles: Oracles): FitEvaluators.Essentials {
    if f.EssentialGenes? then oracles.genes else oracles.reactions
  }

  predicate AllZero(coefficients: seq<real>) {
    forall i :: 0 <= i < |coefficients| ==> coefficients[i] == 0.0
  }

  function Sum(coefficients: seq<real>): real {
    if coefficients == [] then 0.0 else coefficients[0] + Sum(coefficients[1..])
  }

  lemma {:induction false} SumZero(coefficients: seq<real>)
    requires AllZero(coefficients)
    ensures Sum(coefficients) == 0.0
  {
    if coefficients != [] {
      SumZero(coefficients[1..]);
    }
  }

  function Min(a: nat, b: nat): nat { if a <= b then a else b }

  /** `evaluate`: a candidate with only zero coefficients gets the fixed
      penalty values; any other gets its coefficient sum and one fitness
      per zipped evaluator and profile. */
  function Evaluate(s: State, genes: seq<string>, reactions: seq<Reaction>, coefficients: seq<real>,
                    profiles: seq<map<string, bool>>, evaluators: seq<FitEvaluators.Evaluator>, oracles: Oracles): seq<real>
  {
    if AllZero(coefficients) then [1000000.0] + seq(|profiles|, _ => 100000.0)
    else
      [Sum(coefficients)] +
      seq(Min(|evaluators|, |profiles|), k requires 0 <= k < Min(|evaluators|, |profiles|) =>
        FitEvaluators.Fitness(evaluators[k], s, genes, reactions, coefficients, profiles[k], OracleOf(evaluators[k], oracles)))
  }

  /** The all-zero candidate scores `1000000` and `100000` for every
      profile; any other candidate scores its coefficient sum and, per
      zipped pair, a fitness within `[0, total]` of that evaluator. */
  lemma EvaluateMeaning(s: State, genes: seq<string>, reactions: seq<Reaction>, coefficients: seq<real>,
                        profiles: seq<map<string, bool>>, evaluators: seq<FitEvaluators.Evaluator>, oracles: Oracles)
    ensures var r := Evaluate(s, genes, reactions, coefficients, profiles, evaluators, oracles);
      AllZero(coefficients) ==> |r| == 1 + |profiles| && r[0] == 1000000.0 && forall k :: 1 <= k < |r| ==> r[k] == 100000.0
    ensures var r := Evaluate(s, genes, reactions, coefficients, profiles, evaluators, oracles);
      !AllZero(coefficients) ==>
        |r| == 1 + Min(|evaluators|, |profiles|) && r[0] == Sum(coefficients) &&
        forall k :: 0 <= k < |r| - 1 ==> 0.0 <= r[k + 1] <= FitEvaluators.Total(evaluators[k], s, genes)
  {
    if !AllZero(coefficients) {
      var r := Evaluate(s, genes, reactions, coefficients, profiles, evaluators, oracles);
      forall k | 0 <= k < |r| - 1
        ensures 0.0 <= r[k + 1] <= FitEvaluators.Total(evaluators[k], s, genes)
      {
        FitEvaluators.FitnessBounds(evaluators[k], s, genes, reactions, coefficients, profiles[k], OracleOf(evaluators[k], oracles));
      }
    }
  }

  /** `min(v, 1) if v >= 0 else 0`. */
  function Clip(v: real): real {
    if v >= 0.0 then (if v <= 1.0 then v else 1.0) else 0.0
  }

  function Clipped(s: seq<real>): seq<real> {
    seq(|s|, i requires 0 <= i < |s| => Clip(s[i]))
  }

  /** The bounder puts every entry into `[0, 1]`, leaves a candidate
      already there as it is, and applying it twice is applying it once. */
  lemma ClippedMeaning(s: seq<real>)
    ensures |Clipped(s)| == |s| && forall i :: 0 <= i < |s| ==> 0.0 <= Clipped(s)[i] <= 1.0
    ensures (forall i :: 0 <= i < |s| ==> 0.0 <= s[i] <= 1.0) <==> Clipped(s) == s
    ensures Clipped(Clipped(s)) == Clipped(s)
  {
    if Clipped(s) == s {
      forall i | 0 <= i < |s|
        ensures 0.0 <= s[i] <= 1.0
      {
        assert Clipped(s)[i] == s[i];
      }
    }
  }

  /** `zero_one_bounder`: each entry overwritten in place; the same list
      comes back. */
  method ZeroOneBounder(candidate: array<real>) returns (bounded: array<real>)
    modifies candidate
    ensures bounded == candidate && candidate[..] == Clipped(old(candidate[..]))
  {
    for i := 0 to candidate.Length
      invariant forall j :: 0 <= j < i ==> candidate[j] == Clip(old(candidate[j]))
      invariant forall j :: i <= j < candidate.Length ==> candidate[j] == old(candidate[j])
    {
      var v := candidate[i];
      candidate[i] := if v >= 0.0 then (if v <= 1.0 then v else 1.0) else 0.0;
    }
    bounded := candidate;
  }

  /** `[x for x in s if p(x)]`. */
  function Filter<T>(s: seq<T>, p: T -> bool): seq<T> {
    if s == [] then [] else (if p(s[0]) then [s[0]] else []) + Filter(s[1..], p)
  }

  lemma {:induction false} FilterMembers<T>(s: seq<T>, p: T -> bool)
    ensures forall x :: x in Filter(s, p) <==> x in s && p(x)
  {
    if s != [] {
      FilterMembers(s[1..], p);
      assert forall x :: x in s <==> x == s[0] || x in s[1..] by {
        assert s == [s[0]] + s[1..];
      }
    }
  }

  lemma {:induction false} FilterAppend<T>(a: seq<T>, b: seq<T>, p: T -> bool)
    ensures Filter(a + b, p) == Filter(a, p) + Filter(b, p)
  {
    if a == [] {
      assert a + b == b;
    } else {
      FilterAppend(a[1..], b, p);
      assert (a + b)[0] == a[0] && (a + b)[1..] == a[1..] + b;
    }
  }

  predicate IsCandidate(r: Reaction) {
    r.exchange && r.lower >= 0.0
  }

  /** `[r for r in model.exchanges if r.lower_bound >= 0]`. */
  function Candidates(rs: seq<Reaction>): seq<Reaction> {
    Filter(rs, IsCandidate)
  }

  /** The candidate reactions are the exchanges that cannot take up (lower
      bound at least 0), and the selection keeps model order: selecting
      from two lists one after the other is selecting from their
      concatenation. */
  lemma CandidatesMeaning(rs: seq<Reaction>, a: seq<Reaction>, b: seq<Reaction>)
    ensures forall r :: r in Candidates(rs) <==> r in rs && r.exchange && r.lower >= 0.0
    ensures Candidates(a + b) == Candidates(a) + Candidates(b)
  {
    FilterMembers(rs, IsCandidate);
    FilterAppend(a, b, IsCandidate);
  }

  /** `FitProfileStrategy`: its candidate reactions, its profiles and
      evaluators, and the operators its encoding selects. */
  class FitProfileStrategy {
    var model: State
    /** `model.genes`, in model order. */
    var genes: seq<string>
    var reactions: seq<Reaction>
    var profiles: seq<map<string, bool>>
    var evaluators: seq<FitEvaluators.Evaluator>
    var binary: bool
    var variator: FitOperators.Encoding
    var generator: FitOperators.Encoding

    /** `binary=True` selects the binary variator and generator, otherwise
        the linear pair. */
    constructor (model: State, genes: seq<string>, profiles: seq<map<string, bool>>, evaluators: seq<FitEvaluators.Evaluator>, binary: bool)
      ensures this.model == model && this.genes == genes
      ensures reactions == Candidates(model.reactions)
      ensures this.profiles == profiles && this.evaluators == evaluators && this.binary == binary
      ensures variator == generator == (if binary then FitOperators.Binary else FitOperators.Linear)
    {
      this.model := model;
      this.genes := genes;
      this.reactions := Candidates(model.reactions);
      this.profiles := profiles;
      this.evaluators := evaluators;
      this.binary := binary;
      if binary {
        this.variator := FitOperators.Binary;
        this.generator := FitOperators.Binary;
      } else {
        this.variator := FitOperators.Linear;
        this.generator := FitOperators.Linear;
      }
    }

    /** `_evaluator`: one fitness vector per candidate, each against the
        strategy's model, candidate reactions, profiles and evaluators. */
    function Evaluations(candidates: seq<seq<real>>, oracles: Oracles): (r: seq<seq<real>>)
      reads this
      ensures |r| == |candidates|
      ensures forall i :: 0 <= i < |candidates| ==> r[i] == Evaluate(model, genes, reactions, candidates[i], profiles, evaluators, oracles)
    {
      var s, g, rs, ps, fs := model, genes, reactions, profiles, evaluators;
      seq(|candidates|, i requires 0 <= i < |candidates| => Evaluate(s, g, rs, candidates[i], ps, fs, oracles))
    }
  }
}
