/** GIMME (Gene Inactivity Moderated by Metabolism and Expression): keep
    the original objective at a fraction of its optimum (the "required
    metabolic functionalities", RMF) and minimise the flux through reactions
    whose expression lies below a cutoff, each weighted by how far below it
    lies. The optimum of the original objective and the final solve are
    solver results and enter as parameters. */
module Gimme {
  import opened Wrappers
  import opened Metabolic
  import Profile

  /** `{rxn_id: cutoff - expression ... if cutoff > expression}`: the
      penalised reactions and their weights. */
  function Coefficients(profile: map<string, real>, cutoff: real): (c: map<string, real>)
    ensures forall id :: id in c <==> id in profile && cutoff > profile[id]
    ensures forall id :: id in c ==> c[id] > 0.0 && c[id] == cutoff - profile[id]
  {
    map id | id in profile && cutoff > profile[id] :: cutoff - profile[id]
  }

  /** The objective's linear coefficients: the forward and the reverse
      variable of each penalised reaction, in model order. */
  function PenaltyTerms(rs: seq<Reaction>, c: map<string, real>): (ts: seq<Term>)
    ensures forall k :: 0 <= k < |ts| ==> ts[k].v.Forward? || ts[k].v.Reverse?
    ensures forall k :: 0 <= k < |ts| ==> !ts[k].v.Aux? && ts[k].v.rxn in c && ts[k].c == c[ts[k].v.rxn]
  {
    if rs == [] then []
    else
      var n := |rs| - 1;
      var front := PenaltyTerms(rs[..n], c);
      if rs[n].id in c then front + [Term(Forward(rs[n].id), c[rs[n].id]), Term(Reverse(rs[n].id), c[rs[n].id])]
      else front
  }

  /** Every penalised reaction of the model contributes both of its
      variables, and no other variable appears. */
  lemma {:induction false} PenaltyTermsComplete(rs: seq<Reaction>, c: map<string, real>, i: nat)
    requires i < |rs| && rs[i].id in c
    ensures Term(Forward(rs[i].id), c[rs[i].id]) in PenaltyTerms(rs, c)
    ensures Term(Reverse(rs[i].id), c[rs[i].id]) in PenaltyTerms(rs, c)
  {
    var n := |rs| - 1;
    if i < n {
      assert rs[..n][i] == rs[i];
      PenaltyTermsComplete(rs[..n], c, i);
    }
  }

  /** With non-negative forward and reverse variables and positive
      weights the penalty is never negative, and it is zero exactly when no
      penalised reaction carries flux in either direction. */
  lemma {:induction false} PenaltyZero(rs: seq<Reaction>, c: map<string, real>, x: Assignment)
    requires forall id :: id in c ==> c[id] > 0.0
    requires forall i :: 0 <= i < |rs| ==> x(Forward(rs[i].id)) >= 0.0 && x(Reverse(rs[i].id)) >= 0.0
    ensures Value(PenaltyTerms(rs, c), x) >= 0.0
    ensures Value(PenaltyTerms(rs, c), x) == 0.0 <==>
      forall i :: 0 <= i < |rs| && rs[i].id in c ==> x(Forward(rs[i].id)) == 0.0 && x(Reverse(rs[i].id)) == 0.0
  {
    if rs != [] {
      var n := |rs| - 1;
      var front := rs[..n];
      assert forall i :: 0 <= i < n ==> front[i] == rs[i];
      PenaltyZero(front, c, x);
      PenaltyStep(rs, c, x);
      if rs[n].id in c {
        var id := rs[n].id;
        ScaledPair(c[id], x(Forward(id)), x(Reverse(id)));
      }
    }
  }

  /** The last reaction adds its two weighted variables when it is
      penalised, and nothing otherwise. */
  lemma PenaltyStep(rs: seq<Reaction>, c: map<string, real>, x: Assignment)
    requires rs != []
    ensures var id := rs[|rs| - 1].id;
      Value(PenaltyTerms(rs, c), x) ==
        Value(PenaltyTerms(rs[..|rs| - 1], c), x) + (if id in c then c[id] * x(Forward(id)) + c[id] * x(Reverse(id)) else 0.0)
  {
    var n := |rs| - 1;
    var id := rs[n].id;
    if id in c {
      var pair := [Term(Forward(id), c[id]), Term(Reverse(id), c[id])];
      ValueAppend(PenaltyTerms(rs[..n], c), pair, x);
      ValuePair(pair[0], pair[1], x);
    }
  }

  lemma ScaledPair(k: real, f: real, r: real)
    requires k > 0.0 && f >= 0.0 && r >= 0.0
    ensures k * f + k * r >= 0.0
    ensures k * f + k * r == 0.0 <==> f == 0.0 && r == 0.0
  {
    assert k * f >= 0.0 && k * r >= 0.0;
    assert k * f == 0.0 <==> f == 0.0;
    assert k * r == 0.0 <==> r == 0.0;
  }

  /** The RMF constraint: the original objective expression bounded below
      by `fraction * optimum` when it is maximised, above otherwise. */
  function Rmf(o: Objective, fraction: real, optimum: real): (k: Constraint)
    ensures k.terms == o.terms && k.offset == 0.0
  {
    if o.direction == Maximize then Constraint("RMF", o.terms, 0.0, Some(fraction * optimum), None)
    else Constraint("RMF", o.terms, 0.0, None, Some(fraction * optimum))
  }

  /** A flux satisfies the RMF constraint exactly when it keeps the
      original objective at the required fraction, on the side the
      objective's direction calls for. */
  lemma RmfMeaning(o: Objective, fraction: real, optimum: real, x: Assignment)
    ensures Satisfies(Rmf(o, fraction, optimum), x) <==>
      if o.direction == Maximize then Value(o.terms, x) >= fraction * optimum
      else Value(o.terms, x) <= fraction * optimum
  {
  }

  /** The problem GIMME hands to the solver: the RMF constraint added and
      the penalty minimised in place of the objective. */
  function GimmeProblem(s: State, profile: map<string, real>, cutoff: real, fraction: real, optimum: real): (t: State)
    ensures t.reactions == s.reactions && t.variables == s.variables && t.metabolites == s.metabolites
    ensures t.constraints == s.constraints + [Rmf(s.objective, fraction, optimum)]
    ensures t.objective.direction == Minimize
  {
    s.(constraints := s.constraints + [Rmf(s.objective, fraction, optimum)],
       objective := Objective(PenaltyTerms(s.reactions, Coefficients(profile, cutoff)), Minimize))
  }

  /** A reaction is penalised exactly when its expression is below the
      cutoff, with weight `cutoff - expression` on both of its variables. */
  lemma GimmePenalised(s: State, e: map<string, real>, cutoff: real, fraction: real, optimum: real, i: nat)
    requires i < |s.reactions| && s.reactions[i].id in e && cutoff > e[s.reactions[i].id]
    ensures var o := GimmeProblem(s, e, cutoff, fraction, optimum).objective.terms;
      var id := s.reactions[i].id;
      Term(Forward(id), cutoff - e[id]) in o && Term(Reverse(id), cutoff - e[id]) in o
  {
    PenaltyTermsComplete(s.reactions, Coefficients(e, cutoff), i);
  }

  /** A reaction at or above the cutoff, or outside the profile, has no
      term in the objective. */
  lemma GimmeUnpenalised(s: State, e: map<string, real>, cutoff: real, fraction: real, optimum: real, id: string, t: Term)
    requires id !in e || cutoff <= e[id]
    requires t in GimmeProblem(s, e, cutoff, fraction, optimum).objective.terms
    ensures t.v != Forward(id) && t.v != Reverse(id)
  {
  }

  /** The loop that collects `obj_vars`. */
  method ObjectiveTerms(rs: seq<Reaction>, coefficients: map<string, real>) returns (objVars: seq<Term>)
    ensures objVars == PenaltyTerms(rs, coefficients)
  {
    objVars := [];
    var i := 0;
    while i < |rs|
      invariant 0 <= i <= |rs|
      invariant objVars == PenaltyTerms(rs[..i], coefficients)
    {
      assert rs[..i + 1][..i] == rs[..i];
      var rxn := rs[i];
      if rxn.id in coefficients {
        objVars := objVars + [Term(Forward(rxn.id), coefficients[rxn.id]), Term(Reverse(rxn.id), coefficients[rxn.id])];
      }
      i := i + 1;
    }
    assert rs[..i] == rs;
  }

  /** `gimme(model, expression_profile, cutoff, fraction_of_optimum,
      condition)`. `optimum` is what `slim_optimize` returns for the model
      as given and `x` the solver's answer to the GIMME problem. The edits
      are made inside `with model:`, and the model is returned only after
      the block has closed. */
  method Gimme(m: Model, e: Profile.ExpressionProfile, cutoff: real, fraction: real, condition: Profile.Condition,
               optimum: real, x: Assignment)
    returns (r: Result<Solution>)
    requires m.Valid() && m.scope.None? && e.Valid()
    modifies m
    ensures m.Valid() && m.scope.None? && m.Snapshot() == old(m.Snapshot())
    ensures e.ToDict(condition).Err? ==> r == Err(e.ToDict(condition).error)
    ensures e.ToDict(condition).Ok? ==>
      r == Ok(Solve(GimmeProblem(old(m.Snapshot()),
                                 Profile.ReactionProfile(old(m.reactions), e.identifiers, e.ToDict(condition).value),
                                 cutoff, fraction, optimum), x))
  {
    m.Enter();
    ghost var s0 := m.Snapshot();
    var rs := m.reactions;
    var rxnProfile := e.ToReactionDict(condition, rs);
    if rxnProfile.Err? {
      m.Exit();
      return Err(rxnProfile.error);
    }
    var fixObjConst := if m.objective.direction == Maximize
      then Constraint("RMF", m.objective.terms, 0.0, Some(fraction * optimum), None)
      else Constraint("RMF", m.objective.terms, 0.0, None, Some(fraction * optimum));
    assert fixObjConst == Rmf(s0.objective, fraction, optimum);
    m.Do(AddConstraint(fixObjConst));
    ghost var s1 := m.Snapshot();
    assert s1 == s0.(constraints := s0.constraints + [fixObjConst]);
    var coefficients := Coefficients(rxnProfile.value, cutoff);
    var objVars := ObjectiveTerms(rs, coefficients);
    m.Do(SetObjective(Objective(objVars, Minimize)));
    assert m.Snapshot() == GimmeProblem(s0, rxnProfile.value, cutoff, fraction, optimum);
    var sol := Solve(m.Snapshot(), x);
    m.Exit();
    return Ok(sol);
  }
}
