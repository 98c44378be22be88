/** The first generation's GIMME and iMAT. Their edits go through a
    `TimeMachine`, whose undo entries run when its `with` block closes;
    iMAT also removes, in a `finally` block, the variables and constraints
    it added outside that block. The reference distribution GIMME is given
    (or computes by FBA), the flux variability bounds iMAT asks for and the
    solver's answers are inputs. */
module Transcriptomics {
  import opened Wrappers
  import opened Metabolic
  import opened Tables
  import Gpr
  import RuleText
  import Profile
  import LegacyProfile
  import Gimme
  import Imat
  import Results

  // ---------------------------------------------------------------------
  // The condition

  /** `expression_profile.conditions[0] if condition is None else
      condition`: the first label stands in for a missing condition, and an
      empty label list raises IndexError. */
  function DefaultCondition(conds: seq<string>, c: Option<Profile.Condition>): (r: Result<Profile.Condition>)
    ensures r.Ok? <==> c.Some? || |conds| > 0
    ensures r.Err? ==> r.error == IndexError
  {
    if c.Some? then Ok(c.value)
    else if |conds| == 0 then Err(IndexError)
    else Ok(Profile.ByName(conds[0]))
  }

  /** A given condition is used as it is; without one, on distinct labels,
      the profile is read from its first column. */
  lemma DefaultIsFirstColumn(ids: seq<string>, conds: seq<string>, m: Matrix, c: Option<Profile.Condition>)
    requires Profile.ShapeOk(|ids|, |conds|, m) && |conds| > 0
    requires forall i, j :: 0 <= i < j < |conds| ==> conds[i] != conds[j]
    ensures c.Some? ==> DefaultCondition(conds, c) == Ok(c.value)
    ensures c.None? ==>
      Profile.ToDictOf(ids, conds, m, DefaultCondition(conds, c).value) == Profile.ToDictOf(ids, conds, m, Profile.ByIndex(0))
  {
    if c.None? {
      var j := Profile.ConditionIndex(conds, Profile.ByName(conds[0]));
      assert j.Ok? && conds[j.value] == conds[0];
      assert j.value == 0;
    }
  }

  // ---------------------------------------------------------------------
  // The positional arguments of `to_reaction_dict`

  /** What `map_by` receives when a number (GIMME's cutoff) or a function
      (iMAT's normalization) is passed in its place: a value equal to
      neither policy name. */
  const NotAPolicyName: string := ""

  /** `to_reaction_dict(condition, model, cutoff, normalization)` as GIMME
      writes it: the cutoff lands in `map_by` and the normalization
      function in `cutoff`. */
  function PositionalGimmeProfile(rs: seq<Reaction>, ids: seq<string>, exp: map<string, real>): Result<map<string, Option<real>>> {
    LegacyProfile.LegacyReactionProfile(rs, ids, exp, NotAPolicyName, None)
  }

  /** `to_reaction_dict(condition, model, normalization)` as iMAT writes
      it: the normalization function lands in `map_by`, the cutoff keeps
      its default of 0. */
  function PositionalImatProfile(rs: seq<Reaction>, ids: seq<string>, exp: map<string, real>): Result<map<string, Option<real>>> {
    LegacyProfile.LegacyReactionProfile(rs, ids, exp, NotAPolicyName, Some(0.0))
  }

  /** As written, GIMME's profile raises ValueError exactly when some
      profiled reaction has a gene the profile lacks: the function standing
      in for that gene's value cannot be substituted. */
  lemma {:induction false} PositionalGimmeRaises(rs: seq<Reaction>, ids: seq<string>, exp: map<string, real>)
    requires LegacyProfile.Rendered(rs, ids)
    ensures PositionalGimmeProfile(rs, ids, exp).Err? <==>
      exists i :: 0 <= i < |rs| && Profile.Profiled(rs[i], ids) && !(rs[i].Genes() <= exp.Keys)
    ensures PositionalGimmeProfile(rs, ids, exp).Err? ==> PositionalGimmeProfile(rs, ids, exp).error == ValueError
  {
    if rs != [] {
      var n := |rs| - 1;
      var front := rs[..n];
      assert forall i :: 0 <= i < n ==> front[i] == rs[i];
      assert LegacyProfile.Rendered(front, ids);
      PositionalGimmeRaises(front, ids, exp);
      PositionalGimmeStep(rs, ids, exp);
    }
  }

  /** One more reaction fails the loop exactly when it is profiled and
      has a gene the profile lacks; an earlier failure stands. */
  lemma PositionalGimmeStep(rs: seq<Reaction>, ids: seq<string>, exp: map<string, real>)
    requires rs != [] && LegacyProfile.Rendered(rs, ids)
    ensures var n := |rs| - 1;
      var p, q := PositionalGimmeProfile(rs, ids, exp), PositionalGimmeProfile(rs[..n], ids, exp);
      (p.Err? <==> q.Err? || (Profile.Profiled(rs[n], ids) && !(rs[n].Genes() <= exp.Keys))) &&
      (p.Err? ==> p.error == if q.Err? then q.error else ValueError)
  {
    var n := |rs| - 1;
    if Profile.Profiled(rs[n], ids) {
      var rule := rs[n].rule.value;
      RuleText.TextMapGeneToRxnShow(rule, NotAPolicyName, Profile.GeneValues(rs[n].Genes(), exp, 0.0));
    }
  }

  /** As written, iMAT's profile multiplies the genes of a complex and adds
      isozymes: the rule's raw arithmetic, not the documented min/max. */
  lemma PositionalImatAt(rs: seq<Reaction>, ids: seq<string>, exp: map<string, real>, i: nat)
    requires UniqueIds(rs) && LegacyProfile.Rendered(rs, ids) && i < |rs| && Profile.Profiled(rs[i], ids)
    ensures PositionalImatProfile(rs, ids, exp).Ok?
    ensures PositionalImatProfile(rs, ids, exp).value[rs[i].id]
         == Some(Gpr.Activity(rs[i].rule.value, Gpr.Unmapped, Profile.GeneValues(rs[i].Genes(), exp, 0.0)))
  {
    LegacyProfile.LegacyReactionProfileAt(rs, ids, exp, NotAPolicyName, 0.0, i);
  }

  /** The call GIMME evidently means: the documented policy, with missing
      genes reading as the cutoff. */
  function IntendedGimmeProfile(rs: seq<Reaction>, ids: seq<string>, exp: map<string, real>, cutoff: real)
    : (r: Result<map<string, Option<real>>>)
    ensures LegacyProfile.Rendered(rs, ids) ==> r.Ok?
  {
    var r := LegacyProfile.LegacyReactionProfile(rs, ids, exp, "or2max_and2min", Some(cutoff));
    if LegacyProfile.Rendered(rs, ids) then LegacyProfile.LegacyOk(rs, ids, exp, "or2max_and2min", cutoff); r else r
  }

  /** The call iMAT evidently means: `to_reaction_dict(condition, model)`. */
  function IntendedImatProfile(rs: seq<Reaction>, ids: seq<string>, exp: map<string, real>)
    : (r: Result<map<string, Option<real>>>)
    ensures LegacyProfile.Rendered(rs, ids) ==> r.Ok?
  {
    var r := LegacyProfile.LegacyReactionProfile(rs, ids, exp, "or2max_and2min", Some(0.0));
    if LegacyProfile.Rendered(rs, ids) then LegacyProfile.LegacyOk(rs, ids, exp, "or2max_and2min", 0.0); r else r
  }

  /** Every profiled reaction of the intended call holds the minimum over
      a complex and the maximum over isozymes, a gene missing from the
      profile counting as `cutoff`. */
  lemma IntendedProfileAt(rs: seq<Reaction>, ids: seq<string>, exp: map<string, real>, cutoff: real, i: nat)
    requires UniqueIds(rs) && LegacyProfile.Rendered(rs, ids) && i < |rs| && Profile.Profiled(rs[i], ids)
    ensures IntendedGimmeProfile(rs, ids, exp, cutoff).value[rs[i].id]
         == Some(Gpr.Activity(rs[i].rule.value, Gpr.Or2MaxAnd2Min, Profile.GeneValues(rs[i].Genes(), exp, cutoff)))
    ensures IntendedImatProfile(rs, ids, exp).value[rs[i].id]
         == Some(Gpr.Activity(rs[i].rule.value, Gpr.Or2MaxAnd2Min, Profile.GeneValues(rs[i].Genes(), exp, 0.0)))
  {
    LegacyProfile.LegacyReactionProfileAt(rs, ids, exp, "or2max_and2min", cutoff, i);
    LegacyProfile.LegacyReactionProfileAt(rs, ids, exp, "or2max_and2min", 0.0, i);
  }

  /** One reaction whose rule is the complex `ga and gb`. */
  function ComplexReaction(): Reaction {
    var rule := Gpr.And(Gpr.Gene("ga"), Gpr.Gene("gb"));
    Reaction("R", 0.0, 10.0, RuleText.Show(rule), Some(rule), map[], false)
  }

  lemma ComplexRendered(ids: seq<string>)
    requires "ga" in ids
    ensures LegacyProfile.Rendered([ComplexReaction()], ids) && Profile.Profiled(ComplexReaction(), ids)
    ensures UniqueIds([ComplexReaction()]) && ComplexReaction().Genes() == {"ga", "gb"}
  {
    var r := ComplexReaction();
    assert r.Genes() == {"ga", "gb"};
    assert RuleText.CleanId("ga") && RuleText.CleanId("gb");
    assert "ga" in r.Genes();
  }

  /** With `ga` at 2 and `gb` at 3 the complex is worth 6 as iMAT calls
      the profile ... */
  lemma PositionalImatExample()
    ensures PositionalImatProfile([ComplexReaction()], ["ga", "gb"], map["ga" := 2.0, "gb" := 3.0]) == Ok(map["R" := Some(6.0)])
  {
    var rs, ids, exp := [ComplexReaction()], ["ga", "gb"], map["ga" := 2.0, "gb" := 3.0];
    ComplexRendered(ids);
    PositionalImatAt(rs, ids, exp, 0);
    var gv := Profile.GeneValues(rs[0].Genes(), exp, 0.0);
    assert gv["ga"] == 2.0 && gv["gb"] == 3.0;
    assert PositionalImatProfile(rs, ids, exp).value.Keys == {"R"};
  }

  /** ... but 2 as intended. */
  lemma IntendedImatExample()
    ensures IntendedImatProfile([ComplexReaction()], ["ga", "gb"], map["ga" := 2.0, "gb" := 3.0]) == Ok(map["R" := Some(2.0)])
  {
    var rs, ids, exp := [ComplexReaction()], ["ga", "gb"], map["ga" := 2.0, "gb" := 3.0];
    ComplexRendered(ids);
    IntendedProfileAt(rs, ids, exp, 0.0, 0);
    var gv := Profile.GeneValues(rs[0].Genes(), exp, 0.0);
    assert gv["ga"] == 2.0 && gv["gb"] == 3.0;
    assert IntendedImatProfile(rs, ids, exp).value.Keys == {"R"};
  }

  /** With `gb` absent from a profile of `ga` alone, GIMME's call raises
      ... */
  lemma PositionalGimmeExample()
    ensures PositionalGimmeProfile([ComplexReaction()], ["ga"], map["ga" := 2.0]) == Err(ValueError)
  {
    var rs, ids, exp := [ComplexReaction()], ["ga"], map["ga" := 2.0];
    ComplexRendered(ids);
    assert !(rs[0].Genes() <= exp.Keys);
    PositionalGimmeRaises(rs, ids, exp);
  }

  /** ... where the intended one reads `gb` as the cutoff. */
  lemma IntendedGimmeExample()
    ensures IntendedGimmeProfile([ComplexReaction()], ["ga"], map["ga" := 2.0], 1.0) == Ok(map["R" := Some(1.0)])
  {
    var rs, ids, exp := [ComplexReaction()], ["ga"], map["ga" := 2.0];
    ComplexRendered(ids);
    IntendedProfileAt(rs, ids, exp, 1.0, 0);
    var gv := Profile.GeneValues({"ga", "gb"}, exp, 1.0);
    assert "gb" !in exp;
    assert gv["ga"] == 2.0 && gv["gb"] == 1.0;
    assert Gpr.Activity(rs[0].rule.value, Gpr.Or2MaxAnd2Min, gv) == 1.0;
    assert IntendedGimmeProfile(rs, ids, exp, 1.0).value.Keys == {"R"};
  }

  // ---------------------------------------------------------------------
  // GIMME

  /** The comparison `cutoff > exp` raises TypeError on a value that is
      still symbolic; otherwise every value is a number. */
  function Numeric(profile: map<string, Option<real>>): (r: Result<map<string, real>>)
    ensures r.Err? <==> exists k :: k in profile && profile[k].None?
    ensures r.Err? ==> r.error == TypeError
    ensures r.Ok? ==> r.value.Keys == profile.Keys && forall k :: k in profile ==> profile[k] == Some(r.value[k])
  {
    if exists k :: k in profile && profile[k].None? then Err(TypeError)
    else Ok(map k | k in profile :: profile[k].value)
  }

  /** `{r: cutoff - exp if cutoff > exp else 0 ...}`: every profiled
      reaction keeps an entry, those at or above the cutoff with weight 0. */
  function LegacyCoefficients(profile: map<string, real>, cutoff: real): (c: map<string, real>)
    ensures c.Keys == profile.Keys
    ensures forall id :: id in c ==> c[id] >= 0.0 && (c[id] > 0.0 <==> cutoff > profile[id])
    ensures forall id :: id in Gimme.Coefficients(profile, cutoff) ==> c[id] == Gimme.Coefficients(profile, cutoff)[id]
  {
    map id | id in profile :: if cutoff > profile[id] then cutoff - profile[id] else 0.0
  }

  /** The zero weights the older objective keeps change nothing: it takes
      the value the newer objective takes, at every assignment. */
  lemma {:induction false} LegacyPenaltyAgrees(rs: seq<Reaction>, profile: map<string, real>, cutoff: real, x: Assignment)
    ensures Value(Gimme.PenaltyTerms(rs, LegacyCoefficients(profile, cutoff)), x)
         == Value(Gimme.PenaltyTerms(rs, Gimme.Coefficients(profile, cutoff)), x)
  {
    if rs != [] {
      var n := |rs| - 1;
      var id := rs[n].id;
      var c, g := LegacyCoefficients(profile, cutoff), Gimme.Coefficients(profile, cutoff);
      LegacyPenaltyAgrees(rs[..n], profile, cutoff, x);
      Gimme.PenaltyStep(rs, c, x);
      Gimme.PenaltyStep(rs, g, x);
      if id in c && id !in g {
        assert c[id] == 0.0;
      }
    }
  }

  const RmfName: string := "required metabolic functionalities"

  /** The RMF constraint on the model's objective expression, bounded by
      `fraction_of_optimum * objective_value`; the bound's side follows the
      direction of the objective argument. */
  function LegacyRmf(s: State, direction: Direction, bound: real): (k: Constraint)
    ensures k.terms == s.objective.terms && k.offset == 0.0
    ensures forall x :: Satisfies(k, x) <==>
      if direction == Maximize then Value(s.objective.terms, x) >= bound else Value(s.objective.terms, x) <= bound
  {
    if direction == Maximize then Constraint(RmfName, s.objective.terms, 0.0, Some(bound), None)
    else Constraint(RmfName, s.objective.terms, 0.0, None, Some(bound))
  }

  /** `fraction_of_optimum * objective_dist.objective_value`. */
  function RmfBound(fraction: real, dist: Solution): real {
    fraction * dist.objectiveValue
  }

  /** The problem the older GIMME solves. */
  function LegacyGimmeProblem(s: State, profile: map<string, real>, cutoff: real, direction: Direction, bound: real): State {
    s.(constraints := s.constraints + [LegacyRmf(s, direction, bound)],
       objective := Objective(Gimme.PenaltyTerms(s.reactions, LegacyCoefficients(profile, cutoff)), Minimize))
  }

  /** With the model's own objective, the older GIMME poses the newer
      one's problem: the same reactions and variables, the same constraints
      but for the RMF constraint's name, and a minimised objective with the
      same value at every assignment. */
  lemma LegacyMatchesGimme(s: State, profile: map<string, real>, cutoff: real, fraction: real, optimum: real, x: Assignment)
    ensures var o, n := LegacyGimmeProblem(s, profile, cutoff, s.objective.direction, fraction * optimum),
                        Gimme.GimmeProblem(s, profile, cutoff, fraction, optimum);
      o.reactions == n.reactions && o.variables == n.variables && o.metabolites == n.metabolites &&
      |o.constraints| == |n.constraints| &&
      (forall i :: 0 <= i < |o.constraints| ==> o.constraints[i].(name := "") == n.constraints[i].(name := "")) &&
      o.objective.direction == n.objective.direction == Minimize &&
      Value(o.objective.terms, x) == Value(n.objective.terms, x)
  {
    LegacyPenaltyAgrees(s.reactions, profile, cutoff, x);
  }

  /** `GimmeResult`'s reaction profile: the profiled reactions in model
      order with their values. */
  function ProfileEntries(rs: seq<Reaction>, p: map<string, real>): (es: seq<Entry<real>>)
    ensures forall k :: 0 <= k < |es| ==> es[k].key in p && es[k].value == p[es[k].key]
    ensures forall k :: HasKey(es, k) <==> k in p && exists i :: 0 <= i < |rs| && rs[i].id == k
  {
    if rs == [] then []
    else
      var n := |rs| - 1;
      var front := ProfileEntries(rs[..n], p);
      assert forall i :: 0 <= i < n ==> rs[..n][i] == rs[i];
      if rs[n].id in p then
        var es := front + [Entry(rs[n].id, p[rs[n].id])];
        forall k ensures HasKey(es, k) <==> HasKey(front, k) || k == rs[n].id {
          HasKeySnoc(front, Entry(rs[n].id, p[rs[n].id]), k);
        }
        es
      else front
  }

  /** With distinct reaction ids each profiled reaction appears once. */
  lemma {:induction false} ProfileEntriesUnique(rs: seq<Reaction>, p: map<string, real>)
    requires UniqueIds(rs)
    ensures Results.UniqueKeys(ProfileEntries(rs, p))
  {
    if rs != [] {
      var n := |rs| - 1;
      assert UniqueIds(rs[..n]) by {
        assert forall i :: 0 <= i < n ==> rs[..n][i] == rs[i];
      }
      assert forall i :: 0 <= i < n ==> rs[..n][i] == rs[i];
      ProfileEntriesUnique(rs[..n], p);
      if rs[n].id in p {
        var front := ProfileEntries(rs[..n], p);
        assert !HasKey(front, rs[n].id);
        var es := ProfileEntries(rs, p);
        assert es == front + [Entry(rs[n].id, p[rs[n].id])];
        forall i, j | 0 <= i < j < |es| ensures es[i].key != es[j].key {
          if j == |front| {
            assert es[i] == front[i];
          }
        }
      }
    }
  }

  /** What the older `gimme` returns, on the profile's values. */
  function LegacyGimmeOf(s: State, ids: seq<string>, conds: seq<string>, mat: Matrix, cutoff: real,
                         objective: Option<Objective>, dist: Solution, fraction: real,
                         condition: Option<Profile.Condition>, x: Assignment): Result<Results.GimmeResult>
    requires Profile.ShapeOk(|ids|, |conds|, mat)
  {
    var c := DefaultCondition(conds, condition);
    if c.Err? then Err(c.error)
    else
      var geneExp := Profile.ToDictOf(ids, conds, mat, c.value);
      if geneExp.Err? then Err(geneExp.error)
      else
        var profile := IntendedGimmeProfile(s.reactions, ids, geneExp.value, cutoff);
        if profile.Err? then Err(profile.error)
        else
          var values := Numeric(profile.value);
          if values.Err? then Err(values.error)
          else
            var o := if objective.Some? then objective.value else s.objective;
            var sol := Solve(LegacyGimmeProblem(s, values.value, cutoff, o.direction, RmfBound(fraction, dist)), x);
            Ok(Results.GimmeResult(sol.fluxes, sol.objectiveValue, dist.fluxes, ProfileEntries(s.reactions, values.value), cutoff))
  }

  /** On rendered rules over distinct reaction ids the older GIMME always
      returns a result: its fluxes are the solver's, in model order; its
      reference fluxes are the given distribution's; and its profile holds
      each profiled reaction once, with its min/max activity. */
  lemma LegacyGimmeResult(s: State, ids: seq<string>, conds: seq<string>, mat: Matrix, cutoff: real,
                          objective: Option<Objective>, dist: Solution, fraction: real,
                          condition: Option<Profile.Condition>, x: Assignment)
    requires Profile.ShapeOk(|ids|, |conds|, mat) && UniqueIds(s.reactions) && LegacyProfile.Rendered(s.reactions, ids)
    requires DefaultCondition(conds, condition).Ok? && Profile.ToDictOf(ids, conds, mat, DefaultCondition(conds, condition).value).Ok?
    ensures var g := LegacyGimmeOf(s, ids, conds, mat, cutoff, objective, dist, fraction, condition, x);
      g.Ok? && g.value.fbaFluxes == dist.fluxes && g.value.cutoff == cutoff &&
      |g.value.fluxes| == |s.reactions| && Results.UniqueKeys(g.value.expression) &&
      (forall i :: 0 <= i < |s.reactions| ==> g.value.fluxes[i] == Entry(s.reactions[i].id, Flux(s.reactions[i].id, x)))
  {
    var exp := Profile.ToDictOf(ids, conds, mat, DefaultCondition(conds, condition).value).value;
    var profile := IntendedGimmeProfile(s.reactions, ids, exp, cutoff).value;
    forall k | k in profile ensures profile[k].Some? {
      var i :| 0 <= i < |s.reactions| && s.reactions[i].id == k && Profile.Profiled(s.reactions[i], ids);
      IntendedProfileAt(s.reactions, ids, exp, cutoff, i);
    }
    ProfileEntriesUnique(s.reactions, Numeric(profile).value);
  }

  /** The objective the `TimeMachine`'s undo installs: the setter wraps
      the recorded `model.objective.expression` in a new objective, whose
      direction is optlang's default, maximisation. */
  function UndoneObjective(o: Objective): (u: Objective)
    ensures u.terms == o.terms && u.direction == Maximize
  {
    Objective(o.terms, Maximize)
  }

  /** The undo gives the model back its objective exactly when that
      objective was maximised. */
  lemma UndoneObjectiveExact(s: State)
    ensures s.(objective := UndoneObjective(s.objective)) == s <==> s.objective.direction == Maximize
  {
    if s.objective.direction == Maximize {
      assert UndoneObjective(s.objective) == s.objective;
    } else {
      assert s.(objective := UndoneObjective(s.objective)).objective != s.objective;
    }
  }

  /** Inside a `TimeMachine`: the objective replaced, a constraint added,
      the problem solved and both edits undone, the constraint by removal
      and the objective as `UndoneObjective` of the one on entry. */
  method SolveWith(m: Model, o: Objective, k: Constraint, x: Assignment) returns (sol: Solution)
    requires m.Valid() && m.scope.None?
    modifies m
    ensures m.Valid() && m.scope.None?
    ensures m.Snapshot() == old(m.Snapshot()).(objective := UndoneObjective(old(m.objective)))
    ensures sol == Solve(old(m.Snapshot()).(constraints := old(m.constraints) + [k], objective := o), x)
  {
    var undo := UndoneObjective(m.objective);
    m.Enter();
    m.Do(SetObjective(o));
    m.Do(AddConstraint(k));
    sol := Solve(m.Snapshot(), x);
    m.Exit();
    m.Do(SetObjective(undo));
  }

  /** `gimme(model, expression_profile, cutoff, objective, objective_dist,
      fraction_of_optimum, condition=...)` with the intended profile call.
      `dist` is `objective_dist`, or what FBA gives when it is absent, and
      `x` the solver's answer. The objective and the RMF constraint are
      registered with the `TimeMachine`: once the result is returned the
      constraint is gone and the objective is `UndoneObjective` of the one on
      entry. The errors raised before the `TimeMachine` leave the model as
      it was. */
  method LegacyGimme(m: Model, e: Profile.ExpressionProfile, cutoff: real, objective: Option<Objective>, dist: Solution,
                     fraction: real, condition: Option<Profile.Condition>, x: Assignment)
    returns (r: Result<Results.GimmeResult>)
    requires m.Valid() && m.scope.None? && e.Valid()
    modifies m
    ensures m.Valid() && m.scope.None?
    ensures r.Err? ==> m.Snapshot() == old(m.Snapshot())
    ensures r.Ok? ==> m.Snapshot() == old(m.Snapshot()).(objective := UndoneObjective(old(m.objective)))
    ensures r == LegacyGimmeOf(old(m.Snapshot()), e.identifiers, e.conditions, e.expression, cutoff,
                               objective, dist, fraction, condition, x)
  {
    var obj := if objective.None? then m.objective else objective.value;
    var bound := RmfBound(fraction, dist);
    var fixObjConstraint := if obj.direction == Maximize
      then Constraint(RmfName, m.objective.terms, 0.0, Some(bound), None)
      else Constraint(RmfName, m.objective.terms, 0.0, None, Some(bound));
    var c := DefaultCondition(e.conditions, condition);
    if c.Err? {
      return Err(c.error);
    }
    var rs := m.reactions;
    var reactionProfile := LegacyProfile.LegacyToReactionDict(e, c.value, rs, "or2max_and2min", Some(cutoff));
    if reactionProfile.Err? {
      return Err(reactionProfile.error);
    }
    var values := Numeric(reactionProfile.value);
    if values.Err? {
      return Err(values.error);
    }
    var coefficients := LegacyCoefficients(values.value, cutoff);
    var objectiveTerms := Gimme.ObjectiveTerms(rs, coefficients);
    ghost var s0 := m.Snapshot();
    assert fixObjConstraint == LegacyRmf(s0, obj.direction, bound);
    assert objectiveTerms == Gimme.PenaltyTerms(s0.reactions, LegacyCoefficients(values.value, cutoff));
    var solution := SolveWith(m, Objective(objectiveTerms, Minimize), fixObjConstraint, x);
    return Ok(Results.GimmeResult(solution.fluxes, solution.objectiveValue, dist.fluxes, ProfileEntries(rs, values.value), cutoff));
  }

  // ---------------------------------------------------------------------
  // iMAT

  function YPlus(id: string): string { "y_" + id + "+" }
  function YMinus(id: string): string { "y_" + id + "-" }

  /** `flux + y_pos * (lb - epsilon) >= lb`, with `lb` the reaction's
      flux variability minimum. */
  function PosHighly(id: string, epsilon: real, lb: real): Constraint {
    Constraint("pos_highly_" + id, FluxTerms(id) + [Term(Aux(YPlus(id)), lb - epsilon)], 0.0, Some(lb), None)
  }

  /** `flux + y_neg * (ub + epsilon) <= ub`, with `ub` the flux variability
      maximum. */
  function NegHighly(id: string, epsilon: real, ub: real): Constraint {
    Constraint("neg_highly_" + id, FluxTerms(id) + [Term(Aux(YMinus(id)), ub + epsilon)], 0.0, None, Some(ub))
  }

  /** `flux - (1 - x) * ub <= 0`. */
  function LowUpper(id: string, ub: real): Constraint {
    Constraint("x_" + id + "_upper", FluxTerms(id) + [Term(Aux(Imat.XName(id)), ub)], -ub, None, Some(0.0))
  }

  /** `flux - (1 - x) * lb >= 0`. */
  function LowLower(id: string, lb: real): Constraint {
    Constraint("x_" + id + "_lower", FluxTerms(id) + [Term(Aux(Imat.XName(id)), lb)], -lb, Some(0.0), None)
  }

  /** The flux of a reaction plus one weighted indicator. */
  lemma FluxPlus(id: string, t: Term, x: Assignment)
    ensures Value(FluxTerms(id) + [t], x) == Flux(id, x) + t.c * x(t.v)
  {
    var f := FluxTerms(id);
    Imat.ValueTriple(f[0], f[1], t, x);
    assert f + [t] == [f[0], f[1], t];
  }

  /** The forward indicator of a highly expressed reaction: set, it forces
      a flux of at least epsilon; clear, it restates the variability
      minimum. */
  lemma PosHighlyMeaning(id: string, epsilon: real, lb: real, x: Assignment)
    ensures x(Aux(YPlus(id))) == 1.0 ==> (Satisfies(PosHighly(id, epsilon, lb), x) <==> Flux(id, x) >= epsilon)
    ensures x(Aux(YPlus(id))) == 0.0 ==> (Satisfies(PosHighly(id, epsilon, lb), x) <==> Flux(id, x) >= lb)
  {
    FluxPlus(id, Term(Aux(YPlus(id)), lb - epsilon), x);
  }

  /** The reverse indicator: set, it forces a flux of at most -epsilon;
      clear, it restates the variability maximum. */
  lemma NegHighlyMeaning(id: string, epsilon: real, ub: real, x: Assignment)
    ensures x(Aux(YMinus(id))) == 1.0 ==> (Satisfies(NegHighly(id, epsilon, ub), x) <==> Flux(id, x) <= -epsilon)
    ensures x(Aux(YMinus(id))) == 0.0 ==> (Satisfies(NegHighly(id, epsilon, ub), x) <==> Flux(id, x) <= ub)
  {
    FluxPlus(id, Term(Aux(YMinus(id)), ub + epsilon), x);
  }

  /** The indicator of a lowly expressed reaction: set, it pins the flux to
      zero; clear, the flux ranges over the variability interval. */
  lemma LowMeaning(id: string, lb: real, ub: real, x: Assignment)
    ensures x(Aux(Imat.XName(id))) == 1.0 ==>
      (Satisfies(LowUpper(id, ub), x) && Satisfies(LowLower(id, lb), x) <==> Flux(id, x) == 0.0)
    ensures x(Aux(Imat.XName(id))) == 0.0 ==>
      (Satisfies(LowUpper(id, ub), x) && Satisfies(LowLower(id, lb), x) <==> lb <= Flux(id, x) <= ub)
  {
    FluxPlus(id, Term(Aux(Imat.XName(id)), ub), x);
    FluxPlus(id, Term(Aux(Imat.XName(id)), lb), x);
  }

  /** What the loop over the reaction profile has gathered: the x
      variables, the y variables as (negative, positive) pairs, the
      constraints in the order they were made, and the objective's terms. */
  datatype Pending = Pending(xs: seq<Variable>, ys: seq<Variable>, cons: seq<Constraint>, yTerms: seq<Term>, xTerms: seq<Term>)

  const Nothing: Pending := Pending([], [], [], [], [])

  function Merge(a: Pending, b: Pending): Pending {
    Pending(a.xs + b.xs, a.ys + b.ys, a.cons + b.cons, a.yTerms + b.yTerms, a.xTerms + b.xTerms)
  }

  /** One objective term of coefficient 1 per binary indicator, in the
      order of the indicators. */
  predicate Rewarded(p: Pending) {
    |p.yTerms| == |p.ys| && |p.xTerms| == |p.xs| &&
    (forall k :: 0 <= k < |p.ys| ==> p.ys[k].binary && p.yTerms[k] == Term(Aux(p.ys[k].name), 1.0)) &&
    (forall k :: 0 <= k < |p.xs| ==> p.xs[k].binary && p.xTerms[k] == Term(Aux(p.xs[k].name), 1.0))
  }

  lemma MergeRewarded(a: Pending, b: Pending)
    requires Rewarded(a) && Rewarded(b)
    ensures Rewarded(Merge(a, b))
  {
    var m := Merge(a, b);
    forall k | 0 <= k < |m.ys| ensures m.ys[k].binary && m.yTerms[k] == Term(Aux(m.ys[k].name), 1.0) {
      if k >= |a.ys| {
        assert m.ys[k] == b.ys[k - |a.ys|] && m.yTerms[k] == b.yTerms[k - |a.ys|];
      } else {
        assert m.ys[k] == a.ys[k] && m.yTerms[k] == a.yTerms[k];
      }
    }
    forall k | 0 <= k < |m.xs| ensures m.xs[k].binary && m.xTerms[k] == Term(Aux(m.xs[k].name), 1.0) {
      if k >= |a.xs| {
        assert m.xs[k] == b.xs[k - |a.xs|] && m.xTerms[k] == b.xTerms[k - |a.xs|];
      } else {
        assert m.xs[k] == a.xs[k] && m.xTerms[k] == a.xTerms[k];
      }
    }
  }

  /** The additions for one reaction: `expression > high_cutoff` and
      `expression < low_cutoff` are tested independently, and `lb`, `ub`
      are the reaction's flux variability bounds. */
  function OldPart(id: string, expression: real, low: real, high: real, epsilon: real, lb: real, ub: real): (p: Pending)
    ensures Rewarded(p)
  {
    var h := if expression > high then
      Pending([], [Imat.Binary(YMinus(id)), Imat.Binary(YPlus(id))], [PosHighly(id, epsilon, lb), NegHighly(id, epsilon, ub)],
              [Term(Aux(YMinus(id)), 1.0), Term(Aux(YPlus(id)), 1.0)], [])
      else Nothing;
    var l := if expression < low then
      Pending([Imat.Binary(Imat.XName(id))], [], [LowUpper(id, ub), LowLower(id, lb)], [], [Term(Aux(Imat.XName(id)), 1.0)])
      else Nothing;
    MergeRewarded(h, l);
    Merge(h, l)
  }

  /** On ordered cutoffs a reaction gets its y pair exactly when the newer
      iMAT classifies it as highly expressed and its x exactly when it
      classifies it as lowly expressed; on inverted cutoffs an expression
      strictly between them gets both. */
  lemma OldPartClassifies(id: string, expression: real, low: real, high: real, epsilon: real, lb: real, ub: real)
    ensures var p := OldPart(id, expression, low, high, epsilon, lb, ub);
      low <= high ==>
        (|p.ys| == 2 <==> Imat.Classify(expression, low, high) == Imat.Highly) &&
        (|p.xs| == 1 <==> Imat.Classify(expression, low, high) == Imat.Lowly) &&
        |p.cons| == 2 * (|p.ys| / 2 + |p.xs|)
    ensures var p := OldPart(id, expression, low, high, epsilon, lb, ub);
      high < expression < low ==> |p.ys| == 2 && |p.xs| == 1 && |p.cons| == 4
  {
  }

  /** The state of the loop: what it has gathered and whether a comparison
      has raised. */
  datatype Gathered = Gathered(pending: Pending, failed: bool)

  /** The loop over the profile, in model order: a reaction outside the
      profile adds nothing, and a value that is still symbolic makes the
      comparison raise TypeError, which ends the loop. */
  function OldCollected(rs: seq<Reaction>, profile: map<string, Option<real>>, low: real, high: real, epsilon: real,
                        lower: string -> real, upper: string -> real): (g: Gathered)
    ensures Rewarded(g.pending)
  {
    if rs == [] then Gathered(Nothing, false)
    else
      var n := |rs| - 1;
      var front := OldCollected(rs[..n], profile, low, high, epsilon, lower, upper);
      assert forall i :: 0 <= i < n ==> rs[..n][i] == rs[i];
      OldStep(front, rs[n], profile, low, high, epsilon, lower, upper)
  }

  /** One reaction of the loop. */
  function OldStep(g: Gathered, r: Reaction, profile: map<string, Option<real>>, low: real, high: real, epsilon: real,
                   lower: string -> real, upper: string -> real): (h: Gathered)
    requires Rewarded(g.pending)
    ensures Rewarded(h.pending)
    ensures h.failed <==> g.failed || (r.id in profile && profile[r.id].None?)
  {
    var id := r.id;
    if g.failed || id !in profile then g
    else if profile[id].None? then Gathered(g.pending, true)
    else
      var part := OldPart(id, profile[id].value, low, high, epsilon, lower(id), upper(id));
      MergeRewarded(g.pending, part);
      Gathered(Merge(g.pending, part), false)
  }

  /** The loop raises exactly when some profiled reaction's value is still
      symbolic. */
  lemma {:induction false} OldFailedIff(rs: seq<Reaction>, profile: map<string, Option<real>>, low: real, high: real, epsilon: real,
                                        lower: string -> real, upper: string -> real)
    ensures OldCollected(rs, profile, low, high, epsilon, lower, upper).failed <==>
      exists i :: 0 <= i < |rs| && rs[i].id in profile && profile[rs[i].id].None?
  {
    if rs != [] {
      var n := |rs| - 1;
      assert forall i :: 0 <= i < n ==> rs[..n][i] == rs[i];
      OldFailedIff(rs[..n], profile, low, high, epsilon, lower, upper);
    }
  }

  /** Once a comparison has raised, the rest of the reactions add nothing. */
  lemma {:induction false} FailedSticks(rs: seq<Reaction>, profile: map<string, Option<real>>, low: real, high: real, epsilon: real,
                                        lower: string -> real, upper: string -> real, j: nat)
    requires j <= |rs| && OldCollected(rs[..j], profile, low, high, epsilon, lower, upper).failed
    ensures OldCollected(rs, profile, low, high, epsilon, lower, upper) == OldCollected(rs[..j], profile, low, high, epsilon, lower, upper)
  {
    if j < |rs| {
      var n := |rs| - 1;
      assert rs[..n][..j] == rs[..j];
      FailedSticks(rs[..n], profile, low, high, epsilon, lower, upper, j);
    } else {
      assert rs[..j] == rs;
    }
  }

  /** On ordered cutoffs and numeric values the older loop makes as many
      indicators and constraints as the newer iMAT: two y variables and two
      constraints per highly expressed reaction, one x variable and two
      constraints per lowly expressed one. */
  lemma {:induction false} OldCollectedCounts(rs: seq<Reaction>, profile: map<string, Option<real>>, low: real, high: real,
                                              epsilon: real, lower: string -> real, upper: string -> real)
    requires low <= high && Numeric(profile).Ok?
    ensures var g := OldCollected(rs, profile, low, high, epsilon, lower, upper);
      var h := Imat.CountLevel(rs, Numeric(profile).value, low, high, Imat.Highly);
      var l := Imat.CountLevel(rs, Numeric(profile).value, low, high, Imat.Lowly);
      !g.failed && |g.pending.ys| == 2 * h && |g.pending.xs| == l && |g.pending.cons| == 2 * h + 2 * l
  {
    if rs != [] {
      var n := |rs| - 1;
      OldCollectedCounts(rs[..n], profile, low, high, epsilon, lower, upper);
      var id := rs[n].id;
      if id in profile {
        OldPartClassifies(id, profile[id].value, low, high, epsilon, lower(id), upper(id));
      }
    }
  }

  /** `model.solver._add_variable` and `_add_constraint` for every item,
      outside the `TimeMachine`. */
  function Added(s: State, p: Pending): State {
    s.(variables := s.variables + p.xs + p.ys, constraints := s.constraints + p.cons)
  }

  /** The `finally` block: the gathered variables and constraints are
      removed. */
  function Removed(s: State, p: Pending): State {
    s.(variables := Without(s.variables, p.xs + p.ys), constraints := Without(s.constraints, p.cons))
  }

  /** When none of the gathered items was in the model before, removing
      them returns the model to its state before the call, whether or not
      they were added. */
  lemma RemovedRestores(s: State, p: Pending)
    requires forall v :: v in p.xs + p.ys ==> v !in s.variables
    requires forall k :: k in p.cons ==> k !in s.constraints
    ensures Removed(Added(s, p), p) == s && Removed(s, p) == s
  {
    WithoutDisjoint(s.variables, p.xs + p.ys);
    WithoutDisjoint(s.constraints, p.cons);
    assert s.variables + p.xs + p.ys == s.variables + (p.xs + p.ys);
    WithoutAppended(s.variables, p.xs + p.ys, p.xs + p.ys);
    WithoutAppended(s.constraints, p.cons, p.cons);
  }

  /** The sum of the indicators' values. */
  function Indicators(vs: seq<Variable>, x: Assignment): real {
    if vs == [] then 0.0 else Indicators(vs[..|vs| - 1], x) + x(Aux(vs[|vs| - 1].name))
  }

  lemma {:induction false} IndicatorsValue(vs: seq<Variable>, ts: seq<Term>, x: Assignment)
    requires |ts| == |vs| && forall k :: 0 <= k < |vs| ==> ts[k] == Term(Aux(vs[k].name), 1.0)
    ensures Value(ts, x) == Indicators(vs, x)
  {
    if vs != [] {
      var n := |vs| - 1;
      IndicatorsValue(vs[..n], ts[..n], x);
      assert ts == ts[..n] + [ts[n]];
      ValueAppend(ts[..n], [ts[n]], x);
    }
  }

  /** The objective `Add(y_neg + y_pos ...) + Add(x ...)` is the number of
      indicators set, on binary values. */
  lemma RewardValue(p: Pending, x: Assignment)
    requires Rewarded(p)
    ensures Value(p.yTerms + p.xTerms, x) == Indicators(p.ys, x) + Indicators(p.xs, x)
  {
    ValueAppend(p.yTerms, p.xTerms, x);
    IndicatorsValue(p.ys, p.yTerms, x);
    IndicatorsValue(p.xs, p.xTerms, x);
  }

  /** What the older `imat` leaves behind: the model, and its result. */
  datatype Outcome = Outcome(state: State, result: Result<Option<Solution>>)

  /** The older `imat`, with the intended profile call. `lower`, `upper`
      are the flux variability bounds of each reaction and `x` the solver's
      answer, absent when the solver raises. A raised comparison or solve
      is caught and the result is None; the errors raised before the `try`
      leave the model as it was. */
  function LegacyImatOf(s: State, ids: seq<string>, conds: seq<string>, mat: Matrix, low: real, high: real, epsilon: real,
                        condition: Option<Profile.Condition>, lower: string -> real, upper: string -> real,
                        x: Option<Assignment>): (o: Outcome)
    requires Profile.ShapeOk(|ids|, |conds|, mat)
    ensures o.result.Err? ==> o.state == s
    ensures o.result.Err? <==>
      (DefaultCondition(conds, condition).Err? ||
       Profile.ToDictOf(ids, conds, mat, DefaultCondition(conds, condition).value).Err? ||
       IntendedImatProfile(s.reactions, ids, Profile.ToDictOf(ids, conds, mat, DefaultCondition(conds, condition).value).value).Err?)
  {
    var c := DefaultCondition(conds, condition);
    if c.Err? then Outcome(s, Err(c.error))
    else
      var geneExp := Profile.ToDictOf(ids, conds, mat, c.value);
      if geneExp.Err? then Outcome(s, Err(geneExp.error))
      else
        var profile := IntendedImatProfile(s.reactions, ids, geneExp.value);
        if profile.Err? then Outcome(s, Err(profile.error))
        else
          var g := OldCollected(s.reactions, profile.value, low, high, epsilon, lower, upper);
          if g.failed then Outcome(Removed(s, g.pending), Ok(None))
          else
            var problem := Added(s, g.pending).(objective := Objective(g.pending.yTerms + g.pending.xTerms, Maximize));
            Outcome(Removed(Added(s, g.pending), g.pending), Ok(if x.None? then None else Some(Solve(problem, x.value))))
  }

  /** The body of the loop for a reaction with a numeric value. */
  method GatherReaction(rid: string, expression: real, low: real, high: real, epsilon: real, lb: real, ub: real,
                        xs: seq<Variable>, ys: seq<Variable>, cons: seq<Constraint>, yts: seq<Term>, xts: seq<Term>)
    returns (xVariables: seq<Variable>, yVariables: seq<Variable>, constraints: seq<Constraint>,
             yTerms: seq<Term>, xTerms: seq<Term>)
    ensures Pending(xVariables, yVariables, constraints, yTerms, xTerms)
         == Merge(Pending(xs, ys, cons, yts, xts), OldPart(rid, expression, low, high, epsilon, lb, ub))
  {
    xVariables, yVariables, constraints, yTerms, xTerms := xs, ys, cons, yts, xts;
    if expression > high {
      yVariables := yVariables + [Imat.Binary(YMinus(rid)), Imat.Binary(YPlus(rid))];
      yTerms := yTerms + [Term(Aux(YMinus(rid)), 1.0), Term(Aux(YPlus(rid)), 1.0)];
      var posConstraint := Constraint("pos_highly_" + rid, FluxTerms(rid) + [Term(Aux(YPlus(rid)), lb - epsilon)], 0.0, Some(lb), None);
      var negConstraint := Constraint("neg_highly_" + rid, FluxTerms(rid) + [Term(Aux(YMinus(rid)), ub + epsilon)], 0.0, None, Some(ub));
      constraints := constraints + [posConstraint, negConstraint];
    }
    if expression < low {
      xVariables := xVariables + [Imat.Binary(Imat.XName(rid))];
      xTerms := xTerms + [Term(Aux(Imat.XName(rid)), 1.0)];
      constraints := constraints + [LowUpper(rid, ub), LowLower(rid, lb)];
    }
  }

  /** On rendered rules over distinct reaction ids no comparison raises,
      so the older iMAT returns the solver's answer, whose objective counts
      the indicators set; and when no gathered item was in the model
      before, the model is left as it was. */
  lemma LegacyImatResult(s: State, ids: seq<string>, conds: seq<string>, mat: Matrix, low: real, high: real, epsilon: real,
                         condition: Option<Profile.Condition>, lower: string -> real, upper: string -> real,
                         x: Option<Assignment>)
    requires Profile.ShapeOk(|ids|, |conds|, mat) && UniqueIds(s.reactions) && LegacyProfile.Rendered(s.reactions, ids)
    requires DefaultCondition(conds, condition).Ok? && Profile.ToDictOf(ids, conds, mat, DefaultCondition(conds, condition).value).Ok?
    requires var exp := Profile.ToDictOf(ids, conds, mat, DefaultCondition(conds, condition).value).value;
      var p := OldCollected(s.reactions, IntendedImatProfile(s.reactions, ids, exp).value, low, high, epsilon, lower, upper).pending;
      (forall v :: v in p.xs + p.ys ==> v !in s.variables) && (forall k :: k in p.cons ==> k !in s.constraints)
    ensures var exp := Profile.ToDictOf(ids, conds, mat, DefaultCondition(conds, condition).value).value;
      var p := OldCollected(s.reactions, IntendedImatProfile(s.reactions, ids, exp).value, low, high, epsilon, lower, upper).pending;
      var o := LegacyImatOf(s, ids, conds, mat, low, high, epsilon, condition, lower, upper, x);
      o.state == s && o.result.Ok? && (o.result.value.Some? <==> x.Some?) &&
      (x.Some? ==> o.result.value.value.objectiveValue == Indicators(p.ys, x.value) + Indicators(p.xs, x.value))
  {
    var exp := Profile.ToDictOf(ids, conds, mat, DefaultCondition(conds, condition).value).value;
    var profile := IntendedImatProfile(s.reactions, ids, exp).value;
    forall i | 0 <= i < |s.reactions| && s.reactions[i].id in profile ensures profile[s.reactions[i].id].Some? {
      var j :| 0 <= j < |s.reactions| && s.reactions[j].id == s.reactions[i].id && Profile.Profiled(s.reactions[j], ids);
      IntendedProfileAt(s.reactions, ids, exp, 0.0, j);
    }
    OldFailedIff(s.reactions, profile, low, high, epsilon, lower, upper);
    var p := OldCollected(s.reactions, profile, low, high, epsilon, lower, upper).pending;
    RemovedRestores(s, p);
    if x.Some? {
      RewardValue(p, x.value);
    }
  }

  /** The loop over `reaction_profile`, left at the first comparison that
      raises. */
  method OldCollect(rs: seq<Reaction>, profile: map<string, Option<real>>, low: real, high: real, epsilon: real,
                    lower: string -> real, upper: string -> real)
    returns (xVariables: seq<Variable>, yVariables: seq<Variable>, constraints: seq<Constraint>,
             yTerms: seq<Term>, xTerms: seq<Term>, failed: bool)
    ensures Gathered(Pending(xVariables, yVariables, constraints, yTerms, xTerms), failed)
         == OldCollected(rs, profile, low, high, epsilon, lower, upper)
  {
    xVariables, yVariables, constraints, yTerms, xTerms, failed := [], [], [], [], [], false;
    var i := 0;
    while i < |rs| && !failed
      invariant 0 <= i <= |rs|
      invariant Gathered(Pending(xVariables, yVariables, constraints, yTerms, xTerms), failed)
             == OldCollected(rs[..i], profile, low, high, epsilon, lower, upper)
    {
      assert rs[..i + 1][..i] == rs[..i];
      var rid := rs[i].id;
      if rid in profile {
        var expression := profile[rid];
        if expression.None? {
          failed := true;
        } else {
          xVariables, yVariables, constraints, yTerms, xTerms :=
            GatherReaction(rid, expression.value, low, high, epsilon, lower(rid), upper(rid),
                           xVariables, yVariables, constraints, yTerms, xTerms);
        }
      }
      i := i + 1;
    }
    if failed {
      FailedSticks(rs, profile, low, high, epsilon, lower, upper, i);
    } else {
      assert rs[..i] == rs;
    }
  }

  /** `for variable in ...: model.solver._add_variable(variable)`. */
  method AddVariables(m: Model, vs: seq<Variable>)
    requires m.Valid() && m.scope.None?
    modifies m
    ensures m.Valid() && m.scope.None? && m.Snapshot() == old(m.Snapshot()).(variables := old(m.variables) + vs)
  {
    var i := 0;
    while i < |vs|
      invariant 0 <= i <= |vs|
      invariant m.Valid() && m.scope.None? && m.Snapshot() == old(m.Snapshot()).(variables := old(m.variables) + vs[..i])
    {
      assert vs[..i + 1] == vs[..i] + [vs[i]];
      m.Do(AddVariable(vs[i]));
      i := i + 1;
    }
    assert vs[..i] == vs;
  }

  /** `for constraint in constraints: model.solver._add_constraint(constraint)`. */
  method AddConstraints(m: Model, ks: seq<Constraint>)
    requires m.Valid() && m.scope.None?
    modifies m
    ensures m.Valid() && m.scope.None? && m.Snapshot() == old(m.Snapshot()).(constraints := old(m.constraints) + ks)
  {
    var i := 0;
    while i < |ks|
      invariant 0 <= i <= |ks|
      invariant m.Valid() && m.scope.None? && m.Snapshot() == old(m.Snapshot()).(constraints := old(m.constraints) + ks[..i])
    {
      assert ks[..i + 1] == ks[..i] + [ks[i]];
      m.Do(AddConstraint(ks[i]));
      i := i + 1;
    }
    assert ks[..i] == ks;
  }

  /** Inside a `TimeMachine`: the objective replaced and the problem
      solved; the undo restores the objective, also when the solver
      raises. */
  method SolveObjective(m: Model, o: Objective, x: Option<Assignment>) returns (sol: Option<Solution>)
    requires m.Valid() && m.scope.None?
    modifies m
    ensures m.Valid() && m.scope.None? && m.Snapshot() == old(m.Snapshot())
    ensures sol == if x.None? then None else Some(Solve(old(m.Snapshot()).(objective := o), x.value))
  {
    m.Enter();
    m.Do(SetObjective(o));
    sol := None;
    if x.Some? {
      var solution := Solve(m.Snapshot(), x.value);
      sol := Some(solution);
    }
    m.Exit();
  }

  /** `imat(model, expression_profile, low_cutoff, high_cutoff, epsilon,
      condition, ...)` with the intended profile call. */
  method LegacyImat(m: Model, e: Profile.ExpressionProfile, low: real, high: real, epsilon: real,
                    condition: Option<Profile.Condition>, lower: string -> real, upper: string -> real,
                    x: Option<Assignment>)
    returns (r: Result<Option<Solution>>)
    requires m.Valid() && m.scope.None? && e.Valid()
    modifies m
    ensures m.Valid() && m.scope.None?
    ensures Outcome(m.Snapshot(), r) == LegacyImatOf(old(m.Snapshot()), e.identifiers, e.conditions, e.expression,
                                                     low, high, epsilon, condition, lower, upper, x)
  {
    var c := DefaultCondition(e.conditions, condition);
    if c.Err? {
      return Err(c.error);
    }
    var rs := m.reactions;
    var reactionProfile := LegacyProfile.LegacyToReactionDict(e, c.value, rs, "or2max_and2min", Some(0.0));
    if reactionProfile.Err? {
      return Err(reactionProfile.error);
    }
    ghost var s0 := m.Snapshot();
    var xVariables, yVariables, constraints, yTerms, xTerms, failed :=
      OldCollect(rs, reactionProfile.value, low, high, epsilon, lower, upper);
    r := Ok(None);
    if !failed {
      AddVariables(m, xVariables);
      AddVariables(m, yVariables);
      AddConstraints(m, constraints);
      assert m.Snapshot() == Added(s0, Pending(xVariables, yVariables, constraints, yTerms, xTerms));
      var solution := SolveObjective(m, Objective(yTerms + xTerms, Maximize), x);
      r := Ok(solution);
    }
    m.Discard(xVariables + yVariables, constraints);
  }
}
