/** iMAT (Integrative Metabolic Analysis Tool): reactions expressed above
    a high cutoff get two binary indicators that reward carrying flux in
    either direction, reactions below a low cutoff one binary indicator that
    rewards carrying none; the sum of the indicators is maximised. The
    `imat` of the older package's `flux_analysis/imat.py` builds this same
    problem from its own reaction profile (module FluxAnalysisImat); the
    solve is an input. */
module Imat {
  import opened Wrappers
  import opened Metabolic
  import Profile

  datatype Level = Highly | Lowly | Neither

  /** `expression > high_cutoff`, else `expression < low_cutoff`. */
  function Classify(expression: real, low: real, high: real): (c: Level)
    ensures c == Highly <==> expression > high
    ensures c == Lowly <==> expression <= high && expression < low
  {
    if expression > high then Highly else if expression < low then Lowly else Neither
  }

  function Binary(name: string): Variable {
    Variable(name, Some(0.0), Some(1.0), true)
  }

  function YPos(id: string): string { "y_pos_" + id }
  function YNeg(id: string): string { "y_neg_" + id }
  function XName(id: string): string { "x_" + id }

  /** `flux + y_pos * (lb - epsilon) >= lb`. */
  function PosConst(r: Reaction, epsilon: real): Constraint {
    Constraint("y_" + r.id + "_upper", FluxTerms(r.id) + [Term(Aux(YPos(r.id)), r.lower - epsilon)], 0.0, Some(r.lower), None)
  }

  /** `flux + y_neg * (ub + epsilon) <= ub`. */
  function NegConst(r: Reaction, epsilon: real): Constraint {
    Constraint("y_" + r.id + "_lower", FluxTerms(r.id) + [Term(Aux(YNeg(r.id)), r.upper + epsilon)], 0.0, None, Some(r.upper))
  }

  /** `(1 - x) * ub - flux >= 0`. */
  function XUpper(r: Reaction): Constraint {
    Constraint("x_" + r.id + "_upper",
               [Term(Aux(XName(r.id)), -r.upper), Term(Forward(r.id), -1.0), Term(Reverse(r.id), 1.0)],
               r.upper, Some(0.0), None)
  }

  /** `(1 - x) * lb - flux <= 0`. */
  function XLower(r: Reaction): Constraint {
    Constraint("x_" + r.id + "_lower",
               [Term(Aux(XName(r.id)), -r.lower), Term(Forward(r.id), -1.0), Term(Reverse(r.id), 1.0)],
               r.lower, None, Some(0.0))
  }

  lemma ValueTriple(a: Term, b: Term, c: Term, x: Assignment)
    ensures Value([a, b, c], x) == a.c * x(a.v) + b.c * x(b.v) + c.c * x(c.v)
  {
    assert [a, b, c][..2] == [a, b];
    ValuePair(a, b, x);
  }

  lemma PosValue(r: Reaction, epsilon: real, x: Assignment)
    ensures Value(PosConst(r, epsilon).terms, x) == Flux(r.id, x) + (r.lower - epsilon) * x(Aux(YPos(r.id)))
  {
    var t := FluxTerms(r.id);
    assert PosConst(r, epsilon).terms == [t[0], t[1], Term(Aux(YPos(r.id)), r.lower - epsilon)];
    ValueTriple(t[0], t[1], Term(Aux(YPos(r.id)), r.lower - epsilon), x);
  }

  lemma NegValue(r: Reaction, epsilon: real, x: Assignment)
    ensures Value(NegConst(r, epsilon).terms, x) == Flux(r.id, x) + (r.upper + epsilon) * x(Aux(YNeg(r.id)))
  {
    var t := FluxTerms(r.id);
    assert NegConst(r, epsilon).terms == [t[0], t[1], Term(Aux(YNeg(r.id)), r.upper + epsilon)];
    ValueTriple(t[0], t[1], Term(Aux(YNeg(r.id)), r.upper + epsilon), x);
  }

  /** The forward indicator of a highly expressed reaction: set, it forces
      a flux of at least epsilon; clear, it only restates the lower
      bound. */
  lemma PosIndicator(r: Reaction, epsilon: real, x: Assignment)
    ensures x(Aux(YPos(r.id))) == 1.0 ==> (Satisfies(PosConst(r, epsilon), x) <==> Flux(r.id, x) >= epsilon)
    ensures x(Aux(YPos(r.id))) == 0.0 ==> (Satisfies(PosConst(r, epsilon), x) <==> Flux(r.id, x) >= r.lower)
  {
    PosValue(r, epsilon, x);
  }

  /** The reverse indicator: set, it forces a flux of at most -epsilon;
      clear, it only restates the upper bound. */
  lemma NegIndicator(r: Reaction, epsilon: real, x: Assignment)
    ensures x(Aux(YNeg(r.id))) == 1.0 ==> (Satisfies(NegConst(r, epsilon), x) <==> Flux(r.id, x) <= -epsilon)
    ensures x(Aux(YNeg(r.id))) == 0.0 ==> (Satisfies(NegConst(r, epsilon), x) <==> Flux(r.id, x) <= r.upper)
  {
    NegValue(r, epsilon, x);
  }

  /** The indicator of a lowly expressed reaction: set, it pins the flux
      to zero; clear, the flux ranges over the reaction's bounds. */
  lemma LowIndicator(r: Reaction, x: Assignment)
    ensures x(Aux(XName(r.id))) == 1.0 ==>
      (Satisfies(XUpper(r), x) && Satisfies(XLower(r), x) <==> Flux(r.id, x) == 0.0)
    ensures x(Aux(XName(r.id))) == 0.0 ==>
      (Satisfies(XUpper(r), x) && Satisfies(XLower(r), x) <==> r.lower <= Flux(r.id, x) <= r.upper)
  {
    var a := Aux(XName(r.id));
    ValueTriple(Term(a, -r.upper), Term(Forward(r.id), -1.0), Term(Reverse(r.id), 1.0), x);
    ValueTriple(Term(a, -r.lower), Term(Forward(r.id), -1.0), Term(Reverse(r.id), 1.0), x);
    assert XUpper(r).offset + Value(XUpper(r).terms, x) == (1.0 - x(a)) * r.upper - Flux(r.id, x);
    assert XLower(r).offset + Value(XLower(r).terms, x) == (1.0 - x(a)) * r.lower - Flux(r.id, x);
  }

  /** What the loop over the reaction profile collects. */
  datatype Additions = Additions(vars: seq<Variable>, cons: seq<Constraint>, yTerms: seq<Term>, xTerms: seq<Term>)

  /** The additions for one reaction with the given expression. */
  function Part(r: Reaction, expression: real, low: real, high: real, epsilon: real): Additions {
    match Classify(expression, low, high)
    case Highly =>
      Additions([Binary(YPos(r.id)), Binary(YNeg(r.id))], [PosConst(r, epsilon), NegConst(r, epsilon)],
                [Term(Aux(YPos(r.id)), 1.0), Term(Aux(YNeg(r.id)), 1.0)], [])
    case Lowly =>
      Additions([Binary(XName(r.id))], [XUpper(r), XLower(r)], [], [Term(Aux(XName(r.id)), 1.0)])
    case Neither => Additions([], [], [], [])
  }

  function Join(a: Additions, b: Additions): Additions {
    Additions(a.vars + b.vars, a.cons + b.cons, a.yTerms + b.yTerms, a.xTerms + b.xTerms)
  }

  /** The additions for the profiled reactions of `rs`, in model order. */
  function Collected(rs: seq<Reaction>, profile: map<string, real>, low: real, high: real, epsilon: real): Additions {
    if rs == [] then Additions([], [], [], [])
    else
      var n := |rs| - 1;
      var front := Collected(rs[..n], profile, low, high, epsilon);
      if rs[n].id in profile then Join(front, Part(rs[n], profile[rs[n].id], low, high, epsilon)) else front
  }

  function CountLevel(rs: seq<Reaction>, profile: map<string, real>, low: real, high: real, level: Level): nat {
    if rs == [] then 0
    else
      var n := |rs| - 1;
      CountLevel(rs[..n], profile, low, high, level)
        + if rs[n].id in profile && Classify(profile[rs[n].id], low, high) == level then 1 else 0
  }

  /** Two binaries and two constraints per highly expressed reaction, one
      binary and two constraints per lowly expressed one, one objective term
      per binary. */
  lemma {:induction false} CollectedCounts(rs: seq<Reaction>, profile: map<string, real>, low: real, high: real, epsilon: real)
    ensures var a := Collected(rs, profile, low, high, epsilon);
      var h, l := CountLevel(rs, profile, low, high, Highly), CountLevel(rs, profile, low, high, Lowly);
      |a.vars| == 2 * h + l && |a.cons| == 2 * h + 2 * l && |a.yTerms| == 2 * h && |a.xTerms| == l
  {
    if rs != [] {
      CollectedCounts(rs[..|rs| - 1], profile, low, high, epsilon);
    }
  }

  /** Each classified reaction's indicators and constraints are among the
      additions. */
  lemma {:induction false} CollectedFor(rs: seq<Reaction>, profile: map<string, real>, low: real, high: real, epsilon: real, i: nat)
    requires i < |rs| && rs[i].id in profile
    ensures var a := Collected(rs, profile, low, high, epsilon);
      var r := rs[i];
      match Classify(profile[r.id], low, high)
      case Highly =>
        Binary(YPos(r.id)) in a.vars && Binary(YNeg(r.id)) in a.vars &&
        PosConst(r, epsilon) in a.cons && NegConst(r, epsilon) in a.cons
      case Lowly =>
        Binary(XName(r.id)) in a.vars && XUpper(r) in a.cons && XLower(r) in a.cons
      case Neither => true
  {
    var n := |rs| - 1;
    if i < n {
      assert rs[..n][i] == rs[i];
      CollectedFor(rs[..n], profile, low, high, epsilon, i);
    }
  }

  /** The problem iMAT hands to the solver. */
  function ImatProblem(s: State, profile: map<string, real>, low: real, high: real, epsilon: real): State {
    var a := Collected(s.reactions, profile, low, high, epsilon);
    s.(variables := s.variables + a.vars, constraints := s.constraints + a.cons,
       objective := Objective(a.yTerms + a.xTerms, Maximize))
  }

  /** The loop over the reaction profile. */
  method Collect(rs: seq<Reaction>, profile: map<string, real>, low: real, high: real, epsilon: real)
    returns (consVars: seq<Variable>, consts: seq<Constraint>, yVars: seq<Term>, xVars: seq<Term>)
    ensures Additions(consVars, consts, yVars, xVars) == Collected(rs, profile, low, high, epsilon)
  {
    consVars, consts, yVars, xVars := [], [], [], [];
    var i := 0;
    while i < |rs|
      invariant 0 <= i <= |rs|
      invariant Additions(consVars, consts, yVars, xVars) == Collected(rs[..i], profile, low, high, epsilon)
    {
      assert rs[..i + 1][..i] == rs[..i];
      var rxn := rs[i];
      if rxn.id in profile {
        var expression := profile[rxn.id];
        if expression > high {
          yVars := yVars + [Term(Aux(YPos(rxn.id)), 1.0), Term(Aux(YNeg(rxn.id)), 1.0)];
          var posConst := Constraint("y_" + rxn.id + "_upper",
            FluxTerms(rxn.id) + [Term(Aux(YPos(rxn.id)), rxn.lower - epsilon)], 0.0, Some(rxn.lower), None);
          var negConst := Constraint("y_" + rxn.id + "_lower",
            FluxTerms(rxn.id) + [Term(Aux(YNeg(rxn.id)), rxn.upper + epsilon)], 0.0, None, Some(rxn.upper));
          consVars := consVars + [Binary(YPos(rxn.id)), Binary(YNeg(rxn.id))];
          consts := consts + [posConst, negConst];
        } else if expression < low {
          xVars := xVars + [Term(Aux(XName(rxn.id)), 1.0)];
          consVars := consVars + [Binary(XName(rxn.id))];
          consts := consts + [XUpper(rxn), XLower(rxn)];
        }
      }
      i := i + 1;
    }
    assert rs[..i] == rs;
  }

  /** `imat(model, expression_profile, cutoff, epsilon, condition)`:
      ValueError when the low cutoff exceeds the high one, before the model
      is touched; otherwise the edits are made inside `with model:` and are
      gone when the model is returned. `x` is the solver's answer. */
  method Imat(m: Model, e: Profile.ExpressionProfile, low: real, high: real, epsilon: real,
              condition: Profile.Condition, x: Assignment)
    returns (r: Result<Solution>)
    requires m.Valid() && m.scope.None? && e.Valid()
    modifies m
    ensures m.Valid() && m.scope.None? && m.Snapshot() == old(m.Snapshot())
    ensures low > high ==> r == Err(ValueError)
    ensures low <= high && e.ToDict(condition).Err? ==> r == Err(e.ToDict(condition).error)
    ensures low <= high && e.ToDict(condition).Ok? ==>
      r == Ok(Solve(ImatProblem(old(m.Snapshot()),
                                Profile.ReactionProfile(old(m.reactions), e.identifiers, e.ToDict(condition).value),
                                low, high, epsilon), x))
  {
    if low > high {
      return Err(ValueError);
    }
    m.Enter();
    ghost var s0 := m.Snapshot();
    var rs := m.reactions;
    var rxnProfile := e.ToReactionDict(condition, rs);
    if rxnProfile.Err? {
      m.Exit();
      return Err(rxnProfile.error);
    }
    var consVars, consts, yVars, xVars := Collect(rs, rxnProfile.value, low, high, epsilon);
    m.Do(AddConsVars(consVars, consts));
    m.Do(SetObjective(Objective(yVars + xVars, Maximize)));
    assert m.Snapshot() == ImatProblem(s0, rxnProfile.value, low, high, epsilon);
    var sol := Solve(m.Snapshot(), x);
    m.Exit();
    return Ok(sol);
  }
}
