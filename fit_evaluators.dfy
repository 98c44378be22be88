/** The profile evaluators of the objective-fitting heuristic. A candidate
    is a list of coefficients; an evaluator makes the candidate reactions,
    weighted by those coefficients, the model's objective for the length of
    a time-machine block, asks which genes (or reactions) are then
    essential, and counts how far that prediction is from an expected
    essentiality profile. */
module FitEvaluators {
  import opened Wrappers
  import opened Metabolic
  import Dicts

  /** Which essentiality profile an evaluator compares against. */
  datatype Evaluator = EssentialGenes | EssentialReactions

  /** `model.essential_genes()` / `model.essential_reactions()` under a
      given objective: the ids predicted essential, or `None` when the
      solver raises `SolveError`. */
  type Essentials = State -> Option<set<string>>

  /** The keys on which a predicted profile and the expected one agree; a
      key the expected profile lacks counts as not essential. */
  function Agreeing(actual: map<string, bool>, expected: map<string, bool>): set<string> {
    set k | k in actual && Dicts.Get(expected, k, false) == actual[k]
  }

  function Agreement(actual: map<string, bool>, expected: map<string, bool>): nat {
    |Agreeing(actual, expected)|
  }

  lemma {:induction false} SubsetCard(a: set<string>, b: set<string>)
    requires a <= b
    ensures |a| <= |b|
    decreases |b|
  {
    if a != {} {
      var x :| x in a;
      SubsetCard(a - {x}, b - {x});
    }
  }

  /** The score lies between 0 and the number of keys compared, and it is
      that number exactly when the prediction matches the profile on every
      key. */
  lemma AgreementBounds(actual: map<string, bool>, expected: map<string, bool>)
    ensures Agreement(actual, expected) <= |actual|
    ensures (forall k :: k in actual ==> Dicts.Get(expected, k, false) == actual[k]) <==> Agreement(actual, expected) == |actual|
  {
    var a := Agreeing(actual, expected);
    SubsetCard(a, actual.Keys);
    if Agreement(actual, expected) == |actual| && exists k :: k in actual && Dicts.Get(expected, k, false) != actual[k] {
      var k :| k in actual && Dicts.Get(expected, k, false) != actual[k];
      SubsetCard(a, actual.Keys - {k});
    }
    if forall k :: k in actual ==> Dicts.Get(expected, k, false) == actual[k] {
      assert a == actual.Keys;
    }
  }

  /** A key missing from `expected` agrees exactly when it is predicted
      not essential. */
  lemma AgreementMissingKey(actual: map<string, bool>, expected: map<string, bool>, k: string)
    requires k in actual && k !in expected
    ensures k in Agreeing(actual, expected) <==> !actual[k]
  {
  }

  /** `_essential_profile_assertion_score`: the keys of `actual` are
      visited in some order and every agreeing one adds 1. */
  method AssertionScore(actual: map<string, bool>, expected: map<string, bool>) returns (score: real)
    ensures score == Agreement(actual, expected) as real
  {
    var count := 0;
    var keys := actual.Keys;
    while keys != {}
      invariant keys <= actual.Keys
      invariant count == |Agreeing(actual, expected) - keys|
      decreases |keys|
    {
      var key :| key in keys;
      var exp := Dicts.Get(expected, key, false);
      ghost var done := Agreeing(actual, expected) - keys;
      if exp == actual[key] {
        assert Agreeing(actual, expected) - (keys - {key}) == done + {key};
        count := count + 1;
      } else {
        assert Agreeing(actual, expected) - (keys - {key}) == done;
      }
      keys := keys - {key};
    }
    score := count as real;
  }

  /** The objective `sum(coeff * reaction.variable)` over the zipped
      reactions and coefficients; the longer list is cut. */
  function ObjectiveTerms(reactions: seq<Reaction>, coefficients: seq<real>): (t: seq<Term>)
    ensures |t| <= |reactions| && |t| <= |coefficients|
    ensures forall i :: 0 <= i < |t| ==> t[i] == Term(Forward(reactions[i].id), coefficients[i])
  {
    if reactions == [] || coefficients == [] then []
    else [Term(Forward(reactions[0].id), coefficients[0])] + ObjectiveTerms(reactions[1..], coefficients[1..])
  }

  /** The model with the candidate's objective, a new (maximised)
      objective expression. */
  function Fitted(s: State, reactions: seq<Reaction>, coefficients: seq<real>): State {
    s.(objective := Objective(ObjectiveTerms(reactions, coefficients), Maximize))
  }

  /** `{k: k in predicted for k in keys}`. */
  function Flags(keys: seq<string>, predicted: set<string>): (d: map<string, bool>)
    ensures d.Keys == set k | k in keys
  {
    map k | k in keys :: k in predicted
  }

  lemma {:induction false} FlagsCard(keys: seq<string>, predicted: set<string>)
    ensures |Flags(keys, predicted)| <= |keys|
  {
    if keys != [] {
      var n := |keys| - 1;
      FlagsCard(keys[..n], predicted);
      assert keys == keys[..n] + [keys[n]];
      assert (set k | k in keys) == (set k | k in keys[..n]) + {keys[n]};
    }
  }

  /** `model.exchanges`. */
  function Exchanges(rs: seq<Reaction>): (e: seq<Reaction>)
    ensures forall r :: r in e <==> r in rs && r.exchange
  {
    if rs == [] then []
    else (if rs[0].exchange then [rs[0]] else []) + Exchanges(rs[1..])
  }

  /** The reactions that are not exchanges, in model order. */
  function Interior(rs: seq<Reaction>): (e: seq<Reaction>)
    ensures forall r :: r in e <==> r in rs && !r.exchange
  {
    if rs == [] then []
    else (if rs[0].exchange then [] else [rs[0]]) + Interior(rs[1..])
  }

  lemma {:induction false} ExchangesSplit(rs: seq<Reaction>)
    ensures |Exchanges(rs)| + |Interior(rs)| == |rs|
  {
    if rs != [] {
      ExchangesSplit(rs[1..]);
    }
  }

  function Ids(rs: seq<Reaction>): (ids: seq<string>)
    ensures |ids| == |rs| && forall i :: 0 <= i < |rs| ==> ids[i] == rs[i].id
  {
    seq(|rs|, i requires 0 <= i < |rs| => rs[i].id)
  }

  /** The number of comparisons an evaluator can fail: the model's genes,
      or its reactions minus its exchanges. */
  function Total(f: Evaluator, s: State, genes: seq<string>): real {
    if f.EssentialGenes? then |genes| as real
    else (|s.reactions| - |Exchanges(s.reactions)|) as real
  }

  /** The keys the evaluator compares: every gene, or the ids of the
      reactions that are not exchanges. */
  function Compared(f: Evaluator, s: State, genes: seq<string>): seq<string> {
    if f.EssentialGenes? then genes else Ids(Interior(s.reactions))
  }

  /** `essential_genes_profile_evaluator` and
      `essential_reactions_profile_evaluator`: the number of failed
      comparisons, and every comparison failed when the solver fails. */
  function Fitness(f: Evaluator, s: State, genes: seq<string>, reactions: seq<Reaction>, coefficients: seq<real>,
                   essential: map<string, bool>, oracle: Essentials): real
  {
    var total := Total(f, s, genes);
    var predicted := oracle(Fitted(s, reactions, coefficients));
    if predicted.None? then total
    else total - Agreement(Flags(Compared(f, s, genes), predicted.value), essential) as real
  }

  /** A fitness lies in `[0, total]`; it is `total` when the solver fails,
      and 0 when the prediction matches the profile on every compared key
      and no key is compared twice. */
  lemma FitnessBounds(f: Evaluator, s: State, genes: seq<string>, reactions: seq<Reaction>, coefficients: seq<real>,
                      essential: map<string, bool>, oracle: Essentials)
    ensures 0.0 <= Fitness(f, s, genes, reactions, coefficients, essential, oracle) <= Total(f, s, genes)
    ensures oracle(Fitted(s, reactions, coefficients)).None? ==> Fitness(f, s, genes, reactions, coefficients, essential, oracle) == Total(f, s, genes)
  {
    var keys := Compared(f, s, genes);
    ExchangesSplit(s.reactions);
    assert Total(f, s, genes) == |keys| as real;
    var predicted := oracle(Fitted(s, reactions, coefficients));
    if predicted.Some? {
      var actual := Flags(keys, predicted.value);
      AgreementBounds(actual, essential);
      FlagsCard(keys, predicted.value);
    }
  }

  /** The evaluators as written: the candidate's objective is set through
      the time machine, whose undo entry puts the original objective back
      when the block ends, whether the prediction succeeded or not. */
  method EssentialProfileEvaluator(f: Evaluator, m: Model, genes: seq<string>, coefficients: seq<real>, reactions: seq<Reaction>,
                                   essential: map<string, bool>, oracle: Essentials) returns (fitness: real)
    requires m.Valid() && m.scope.None?
    modifies m
    ensures m.Valid() && m.scope.None? && m.Snapshot() == old(m.Snapshot())
    ensures fitness == Fitness(f, old(m.Snapshot()), genes, reactions, coefficients, essential, oracle)
  {
    var total := if f.EssentialGenes? then |genes| as real else (|m.reactions| - |Exchanges(m.reactions)|) as real;
    var keys := if f.EssentialGenes? then genes else Ids(Interior(m.reactions));
    m.Enter();
    var obj := Objective(ObjectiveTerms(reactions, coefficients), Maximize);
    m.Do(SetObjective(obj));
    var predicted := oracle(m.Snapshot());
    if predicted.None? {
      fitness := total;
    } else {
      var actual := Flags(keys, predicted.value);
      var score := AssertionScore(actual, essential);
      fitness := total - score;
    }
    m.Exit();
  }
}
