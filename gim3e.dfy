/** GIM3E (Gene Inactivation Moderated by Metabolism, Metabolomics and
    Expression): every metabolite gets a turnover metabolite that each of
    its reactions produces at the absolute value of its coefficient, every
    turnover metabolite a sink (forced open for the detected metabolites of
    the medium), and the flux through each profiled reaction is penalised
    by how far its expression lies below the profile's largest value. The
    penalised optimum bounds the penalty and the original objective is
    solved last. The edits stay on the model. The solver's optima, its
    feasibility tolerance and its final answer are inputs. */
module Gim3e {
  import opened Wrappers
  import opened Metabolic
  import opened Tables
  import Gpr
  import Profile
  import LegacyProfile
  import Gimme
  import Transcriptomics

  // ---------------------------------------------------------------------
  // Turnover metabolites

  function TurnoverId(id: string): string { "TM_" + id }

  /** Python's `id[3:]`: the id without its first three characters. */
  function Unprefixed(id: string): string {
    if |id| >= 3 then id[3..] else ""
  }

  /** Distinct metabolites have distinct turnover metabolites, and the
      prefix comes off again. */
  lemma TurnoverIdInjective(a: string, b: string)
    ensures Unprefixed(TurnoverId(a)) == a
    ensures TurnoverId(a) == TurnoverId(b) ==> a == b
  {
    assert TurnoverId(a)[3..] == a;
    assert TurnoverId(b)[3..] == b;
  }

  /** `mets_to_add`: the turnover metabolite of each of the reaction's
      metabolites, at the absolute value of its coefficient. */
  function MetsToAdd(st: map<string, real>): (add: map<string, real>)
    ensures forall k :: k in st ==> TurnoverId(k) in add && add[TurnoverId(k)] == Abs(st[k])
    ensures forall t :: t in add ==> exists k :: k in st && t == TurnoverId(k)
  {
    forall k | k in st ensures Unprefixed(TurnoverId(k)) == k {
      TurnoverIdInjective(k, k);
    }
    map t | t in (set k | k in st :: TurnoverId(k)) :: Abs(st[Unprefixed(t)])
  }

  /** `reaction.add_metabolites(d)` with `combine=True`: a metabolite
      already in the reaction has the coefficients added. */
  function Combine(st: map<string, real>, add: map<string, real>): (c: map<string, real>)
    ensures c.Keys == st.Keys + add.Keys
    ensures forall k :: k in add && k !in st ==> c[k] == add[k]
    ensures forall k :: k in st && k !in add ==> c[k] == st[k]
    ensures forall k :: k in st && k in add ==> c[k] == st[k] + add[k]
  {
    map k | k in st.Keys + add.Keys :: (if k in st then st[k] else 0.0) + (if k in add then add[k] else 0.0)
  }

  function WithTurnover(r: Reaction): Reaction {
    r.(stoichiometry := Combine(r.stoichiometry, MetsToAdd(r.stoichiometry)))
  }

  /** Each metabolite of a reaction brings its turnover metabolite at the
      absolute value of its coefficient (added to what the reaction already
      had of it), and a metabolite that is no metabolite's turnover keeps
      its coefficient. */
  lemma WithTurnoverMeaning(r: Reaction, k: string)
    requires k in r.stoichiometry
    ensures var st := WithTurnover(r).stoichiometry;
      TurnoverId(k) in st &&
      st[TurnoverId(k)] == (if TurnoverId(k) in r.stoichiometry then r.stoichiometry[TurnoverId(k)] else 0.0)
                           + Abs(r.stoichiometry[k])
    ensures (forall j :: j in r.stoichiometry ==> k != TurnoverId(j)) ==>
      WithTurnover(r).stoichiometry[k] == r.stoichiometry[k]
  {
  }

  /** Everything else about a reaction is left alone. */
  lemma WithTurnoverKeeps(r: Reaction)
    ensures WithTurnover(r).id == r.id && WithTurnover(r).lower == r.lower && WithTurnover(r).upper == r.upper
    ensures WithTurnover(r).rule == r.rule && WithTurnover(r).stoichiometry.Keys >= r.stoichiometry.Keys
  {
  }

  // ---------------------------------------------------------------------
  // Sinks

  /** `model.metabolites.query("^TM_")`. */
  predicate IsTurnover(id: string) {
    |id| >= 3 && id[..3] == "TM_"
  }

  /** `penalty_fraction * tolerance`. */
  function SinkBound(penaltyFraction: real, tolerance: real): real {
    penaltyFraction * tolerance
  }

  /** `SK_<id>`, consuming two units of the turnover metabolite, with
      cobra's default bounds but for a lower bound that is `bound` for a
      metabolite detected in the medium. A sink is not an exchange. */
  function Sink(mid: string, media: seq<string>, bound: real): Reaction {
    Reaction("SK_" + mid, if Unprefixed(mid) in media then bound else 0.0, 1000.0, "", None, map[mid := -2.0], false)
  }

  /** The sinks, one per turnover metabolite, in the model's order. */
  function Sinks(ms: seq<string>, media: seq<string>, bound: real): (rs: seq<Reaction>)
    ensures forall r :: r in rs <==> exists i :: 0 <= i < |ms| && IsTurnover(ms[i]) && r == Sink(ms[i], media, bound)
  {
    if ms == [] then []
    else
      var n := |ms| - 1;
      var front := Sinks(ms[..n], media, bound);
      assert forall i :: 0 <= i < n ==> ms[..n][i] == ms[i];
      if IsTurnover(ms[n]) then front + [Sink(ms[n], media, bound)] else front
  }

  /** Every turnover metabolite the call adds gets its sink: the sink of
      the turnover metabolite of an original metabolite `m` is open below
      at `bound` exactly when `m` is detected in the medium. */
  lemma SinkOfTurnover(ms: seq<string>, media: seq<string>, bound: real, i: nat)
    requires i < |ms|
    ensures var t := TurnoverId(ms[i]);
      Sink(t, media, bound) in Sinks(ms + Turnover(ms), media, bound) &&
      Sink(t, media, bound).lower == (if ms[i] in media then bound else 0.0) &&
      Sink(t, media, bound).stoichiometry == map[t := -2.0]
  {
    var all := ms + Turnover(ms);
    assert all[|ms| + i] == TurnoverId(ms[i]);
    assert TurnoverId(ms[i])[..3] == "TM_";
    TurnoverIdInjective(ms[i], ms[i]);
  }

  function Turnover(ms: seq<string>): seq<string> {
    seq(|ms|, i requires 0 <= i < |ms| => TurnoverId(ms[i]))
  }

  // ---------------------------------------------------------------------
  // Penalties

  /** `exp_max, _ = expression_profile.minmax()` as written: the first
      component, which is the smallest value. */
  function ExpMaxAsWritten(mm: (real, real)): real { mm.0 }

  /** The value the name and the method call for: the largest value. */
  function ExpMax(mm: (real, real)): real { mm.1 }

  /** `{rxn_id: exp_max - expression ...}`. */
  function Penalties(profile: map<string, real>, expMax: real): (c: map<string, real>)
    ensures c.Keys == profile.Keys
    ensures forall id :: id in c ==> c[id] + profile[id] == expMax
  {
    map id | id in profile :: expMax - profile[id]
  }

  /** On rendered rules whose genes are all in the profile, a reaction's
      value is one of its genes' values, so it lies within the profile's
      smallest and largest value. */
  lemma ProfiledWithinRange(rs: seq<Reaction>, ids: seq<string>, conds: seq<string>, mat: Matrix, c: Profile.Condition, i: nat)
    requires Profile.ShapeOk(|ids|, |conds|, mat) && UniqueIds(rs) && LegacyProfile.Rendered(rs, ids)
    requires Profile.ToDictOf(ids, conds, mat, c).Ok? && Profile.MinMaxOf(ids, conds, mat, None).Ok?
    requires i < |rs| && Profile.Profiled(rs[i], ids) && forall g :: g in rs[i].Genes() ==> g in ids
    ensures var p := LegacyProfile.LegacyReactionProfile(rs, ids, Profile.ToDictOf(ids, conds, mat, c).value, "or2max_and2min", Some(0.0));
      var mm := Profile.MinMaxOf(ids, conds, mat, None).value;
      p.Ok? && rs[i].id in p.value && p.value[rs[i].id].Some? && mm.0 <= p.value[rs[i].id].value <= mm.1
  {
    var exp := Profile.ToDictOf(ids, conds, mat, c).value;
    LegacyProfile.LegacyReactionProfileAt(rs, ids, exp, "or2max_and2min", 0.0, i);
    var gv := Profile.GeneValues(rs[i].Genes(), exp, 0.0);
    Gpr.MinMaxPicksGene(rs[i].rule.value, gv);
    var g :| g in rs[i].Genes() && Gpr.Activity(rs[i].rule.value, Gpr.Or2MaxAnd2Min, gv) == gv[g];
    Profile.ToDictLookup(ids, conds, mat, c, g);
    Profile.MinMaxWhole(ids, conds, mat);
  }

  /** As written, every such reaction gets a penalty of at most zero, so
      minimising the penalty rewards flux through it instead of charging
      it. */
  lemma AsWrittenPenaltyNonPositive(rs: seq<Reaction>, ids: seq<string>, conds: seq<string>, mat: Matrix, c: Profile.Condition, i: nat)
    requires Profile.ShapeOk(|ids|, |conds|, mat) && UniqueIds(rs) && LegacyProfile.Rendered(rs, ids)
    requires Profile.ToDictOf(ids, conds, mat, c).Ok? && Profile.MinMaxOf(ids, conds, mat, None).Ok?
    requires i < |rs| && Profile.Profiled(rs[i], ids) && forall g :: g in rs[i].Genes() ==> g in ids
    ensures var p := LegacyProfile.LegacyReactionProfile(rs, ids, Profile.ToDictOf(ids, conds, mat, c).value, "or2max_and2min", Some(0.0));
      p.Ok? && rs[i].id in p.value
    ensures var p := LegacyProfile.LegacyReactionProfile(rs, ids, Profile.ToDictOf(ids, conds, mat, c).value, "or2max_and2min", Some(0.0));
      var v := Transcriptomics.Numeric(p.value);
      v.Ok? ==> Penalties(v.value, ExpMaxAsWritten(Profile.MinMaxOf(ids, conds, mat, None).value))[rs[i].id] <= 0.0
  {
    ProfiledWithinRange(rs, ids, conds, mat, c, i);
  }

  /** With the largest value every such reaction gets a penalty of at
      least zero. */
  lemma PenaltyNonNegative(rs: seq<Reaction>, ids: seq<string>, conds: seq<string>, mat: Matrix, c: Profile.Condition, i: nat)
    requires Profile.ShapeOk(|ids|, |conds|, mat) && UniqueIds(rs) && LegacyProfile.Rendered(rs, ids)
    requires Profile.ToDictOf(ids, conds, mat, c).Ok? && Profile.MinMaxOf(ids, conds, mat, None).Ok?
    requires i < |rs| && Profile.Profiled(rs[i], ids) && forall g :: g in rs[i].Genes() ==> g in ids
    ensures var p := LegacyProfile.LegacyReactionProfile(rs, ids, Profile.ToDictOf(ids, conds, mat, c).value, "or2max_and2min", Some(0.0));
      p.Ok? && rs[i].id in p.value
    ensures var p := LegacyProfile.LegacyReactionProfile(rs, ids, Profile.ToDictOf(ids, conds, mat, c).value, "or2max_and2min", Some(0.0));
      var v := Transcriptomics.Numeric(p.value);
      v.Ok? ==> Penalties(v.value, ExpMax(Profile.MinMaxOf(ids, conds, mat, None).value))[rs[i].id] >= 0.0
  {
    ProfiledWithinRange(rs, ids, conds, mat, c, i);
  }

  /** Genes at 1 and 5: as written the reaction of the gene at 5 is
      rewarded with -4; with the largest value it costs nothing and the
      reaction of the gene at 1 costs 4. */
  lemma PenaltyExample()
    ensures Penalties(map["R1" := 1.0, "R5" := 5.0], ExpMaxAsWritten((1.0, 5.0))) == map["R1" := 0.0, "R5" := -4.0]
    ensures Penalties(map["R1" := 1.0, "R5" := 5.0], ExpMax((1.0, 5.0))) == map["R1" := 4.0, "R5" := 0.0]
  {
    var p := map["R1" := 1.0, "R5" := 5.0];
    assert Penalties(p, 1.0).Keys == {"R1", "R5"};
    assert Penalties(p, 5.0).Keys == {"R1", "R5"};
  }

  // ---------------------------------------------------------------------
  // The problem

  /** `slim_optimize() * fraction`, the bound `fix_objective_as_constraint`
      computes from the optimum. */
  function FixedBound(fraction: real, optimum: real): real {
    optimum * fraction
  }

  /** `fix_objective_as_constraint(model, fraction)`: the objective
      expression kept at the bound, from below for a maximisation. */
  function FixObjective(o: Objective, bound: real): (k: Constraint)
    ensures k.terms == o.terms && k.offset == 0.0
    ensures forall x :: Satisfies(k, x) <==>
      if o.direction == Maximize then Value(o.terms, x) >= bound else Value(o.terms, x) <= bound
  {
    if o.direction == Maximize then Constraint("fixed_objective", o.terms, 0.0, Some(bound), None)
    else Constraint("fixed_objective", o.terms, 0.0, None, Some(bound))
  }

  /** `penalty_fraction * penalty_obj`. */
  function PenaltyBound(penaltyFraction: real, penaltyOptimum: real): real {
    penaltyFraction * penaltyOptimum
  }

  /** `penalty_objective_bound`: the penalty expression bounded above. */
  function PenaltyConstraint(terms: seq<Term>, bound: real): (k: Constraint)
    ensures k.terms == terms
    ensures forall x :: Satisfies(k, x) <==> Value(terms, x) <= bound
  {
    Constraint("penalty_objective_bound", terms, 0.0, None, Some(bound))
  }

  function Extend(rs: seq<Reaction>): seq<Reaction> {
    seq(|rs|, i requires 0 <= i < |rs| => WithTurnover(rs[i]))
  }

  /** The model once the objective is fixed and the turnover metabolites,
      their coefficients and the sinks are in. */
  function Extended(s: State, media: seq<string>, sinkBound: real, fixBound: real): State {
    var ms := s.metabolites + Turnover(s.metabolites);
    s.(constraints := s.constraints + [FixObjective(s.objective, fixBound)],
       metabolites := ms,
       reactions := Extend(s.reactions) + Sinks(ms, media, sinkBound))
  }

  /** What `gim3e` leaves on the model, and what it returns. */
  datatype Outcome = Outcome(state: State, result: Result<Solution>)

  /** `gim3e(model, expression_profile, metabolite_profile, media,
      optimum_fraction, penalty_fraction, condition)` with the largest
      profile value. `tolerance` is the solver's feasibility tolerance,
      `optimum` the original optimum, `penaltyOptimum` the penalty's and
      `x` the final answer. The profile, the condition and the medium are
      read before the model is touched; a value that is still symbolic
      cannot be given to the solver as a coefficient, which raises
      TypeError once the objective has been cleared. */
  function Gim3eOf(s: State, ids: seq<string>, conds: seq<string>, mat: Matrix,
                   metaboliteProfile: map<string, seq<string>>, media: string,
                   optimumFraction: real, penaltyFraction: real, condition: Profile.Condition,
                   tolerance: real, optimum: real, penaltyOptimum: real, x: Assignment): (o: Outcome)
    requires Profile.ShapeOk(|ids|, |conds|, mat)
    ensures Profile.MinMaxOf(ids, conds, mat, None).Err? ==> o == Outcome(s, Err(Profile.MinMaxOf(ids, conds, mat, None).error))
    ensures o.result.Ok? ==> o.state.objective == s.objective && o.result.value == Solve(o.state, x)
    ensures o.result.Err? && o.state != s ==> o.result.error == TypeError && o.state.objective == Objective([], Minimize)
  {
    var mm := Profile.MinMaxOf(ids, conds, mat, None);
    if mm.Err? then Outcome(s, Err(mm.error))
    else
      var geneExp := Profile.ToDictOf(ids, conds, mat, condition);
      if geneExp.Err? then Outcome(s, Err(geneExp.error))
      else
        var profile := LegacyProfile.LegacyReactionProfile(s.reactions, ids, geneExp.value, "or2max_and2min", Some(0.0));
        if profile.Err? then Outcome(s, Err(profile.error))
        else if media !in metaboliteProfile then Outcome(s, Err(KeyError))
        else
          var e := Extended(s, metaboliteProfile[media], SinkBound(penaltyFraction, tolerance), FixedBound(optimumFraction, optimum));
          PenaltyStage(e, s.reactions, profile.value, ExpMax(mm.value), penaltyFraction, penaltyOptimum, x)
  }

  /** What follows the extension: the objective is replaced by the empty
      minimisation, and then a value of `None` in the profile makes setting
      the penalty coefficients raise TypeError, leaving that empty objective
      on the extended model; otherwise the penalty bound is added and the
      objective `e` had is solved. */
  function PenaltyStage(e: State, rs: seq<Reaction>, profile: map<string, Option<real>>, expMax: real,
                        penaltyFraction: real, penaltyOptimum: real, x: Assignment): (o: Outcome)
    ensures o.result.Ok? ==> o.state.objective == e.objective && o.result.value == Solve(o.state, x)
    ensures o.result.Ok? ==> o.state.(constraints := e.constraints) == e && |o.state.constraints| == |e.constraints| + 1
    ensures o.result.Ok? ==> o.state.constraints[..|e.constraints|] == e.constraints
    ensures o.result.Err? <==> exists k :: k in profile && profile[k].None?
    ensures o.result.Err? ==> o.result.error == TypeError && o.state == e.(objective := Objective([], Minimize))
  {
    var values := Transcriptomics.Numeric(profile);
    if values.Err? then Outcome(e.(objective := Objective([], Minimize)), Err(values.error))
    else
      var terms := Gimme.PenaltyTerms(rs, Penalties(values.value, expMax));
      var t := e.(constraints := e.constraints + [PenaltyConstraint(terms, PenaltyBound(penaltyFraction, penaltyOptimum))]);
      Outcome(t, Ok(Solve(t, x)))
  }

  /** The penalties, their bound and the final solve. */
  method PenaltyPhase(m: Model, rs: seq<Reaction>, profile: map<string, Option<real>>, expMax: real,
                      penaltyFraction: real, penaltyOptimum: real, x: Assignment)
    returns (r: Result<Solution>)
    requires m.Valid() && m.scope.None?
    modifies m
    ensures m.Valid() && m.scope.None?
    ensures Outcome(m.Snapshot(), r) == PenaltyStage(old(m.Snapshot()), rs, profile, expMax, penaltyFraction, penaltyOptimum, x)
  {
    var objective := m.objective;
    var values := Transcriptomics.Numeric(profile);
    if values.Err? {
      m.Do(SetObjective(Objective([], Minimize)));
      return Err(values.error);
    }
    var objVars := Gimme.ObjectiveTerms(rs, Penalties(values.value, expMax));
    m.Do(SetObjective(Objective([], Minimize)));
    m.Do(SetObjective(Objective(objVars, Minimize)));
    m.Do(AddConstraint(PenaltyConstraint(objVars, PenaltyBound(penaltyFraction, penaltyOptimum))));
    m.Do(SetObjective(objective));
    var sol := Solve(m.Snapshot(), x);
    return Ok(sol);
  }

  /** On success every step before the penalties went through, and what
      remains is the penalty stage applied to the extended model. */
  lemma Gim3eStages(s: State, ids: seq<string>, conds: seq<string>, mat: Matrix,
                    metaboliteProfile: map<string, seq<string>>, media: string,
                    optimumFraction: real, penaltyFraction: real, condition: Profile.Condition,
                    tolerance: real, optimum: real, penaltyOptimum: real, x: Assignment)
    requires Profile.ShapeOk(|ids|, |conds|, mat)
    requires Gim3eOf(s, ids, conds, mat, metaboliteProfile, media, optimumFraction, penaltyFraction, condition,
                     tolerance, optimum, penaltyOptimum, x).result.Ok?
    ensures Profile.MinMaxOf(ids, conds, mat, None).Ok? && Profile.ToDictOf(ids, conds, mat, condition).Ok?
    ensures media in metaboliteProfile
    ensures LegacyProfile.LegacyReactionProfile(s.reactions, ids, Profile.ToDictOf(ids, conds, mat, condition).value,
                                                "or2max_and2min", Some(0.0)).Ok?
    ensures Gim3eOf(s, ids, conds, mat, metaboliteProfile, media, optimumFraction, penaltyFraction, condition,
                    tolerance, optimum, penaltyOptimum, x) ==
      PenaltyStage(Extended(s, metaboliteProfile[media], SinkBound(penaltyFraction, tolerance), FixedBound(optimumFraction, optimum)),
                   s.reactions,
                   LegacyProfile.LegacyReactionProfile(s.reactions, ids, Profile.ToDictOf(ids, conds, mat, condition).value,
                                                       "or2max_and2min", Some(0.0)).value,
                   ExpMax(Profile.MinMaxOf(ids, conds, mat, None).value), penaltyFraction, penaltyOptimum, x)
  {
  }

  /** On success the constraint the penalty stage adds is the penalty
      bound, and each reaction of the profile is penalised on both of its
      directions by the largest profile value less its own. */
  lemma PenaltyStagePenalised(e: State, rs: seq<Reaction>, profile: map<string, Option<real>>, expMax: real,
                              penaltyFraction: real, penaltyOptimum: real, x: Assignment, i: nat)
    requires PenaltyStage(e, rs, profile, expMax, penaltyFraction, penaltyOptimum, x).result.Ok?
    requires i < |rs| && rs[i].id in profile
    ensures profile[rs[i].id].Some?
    ensures var k := PenaltyStage(e, rs, profile, expMax, penaltyFraction, penaltyOptimum, x).state.constraints[|e.constraints|];
      var id := rs[i].id;
      k == PenaltyConstraint(k.terms, PenaltyBound(penaltyFraction, penaltyOptimum)) &&
      Term(Forward(id), expMax - profile[id].value) in k.terms && Term(Reverse(id), expMax - profile[id].value) in k.terms
  {
    var values := Transcriptomics.Numeric(profile);
    Gimme.PenaltyTermsComplete(rs, Penalties(values.value, expMax), i);
  }

  /** The extended model keeps every original metabolite, adds its
      turnover metabolite and that metabolite's sink, keeps each original
      reaction's place, id and bounds and makes it produce the turnover
      metabolite of each of its metabolites, and keeps the original
      constraints first. */
  lemma ExtendedStructure(s: State, media: seq<string>, sinkBound: real, fixBound: real, i: nat, j: nat)
    requires i < |s.metabolites| && j < |s.reactions|
    ensures var t := Extended(s, media, sinkBound, fixBound);
      var m := s.metabolites[i];
      m in t.metabolites && TurnoverId(m) in t.metabolites && Sink(TurnoverId(m), media, sinkBound) in t.reactions &&
      t.reactions[j].id == s.reactions[j].id && t.reactions[j].lower == s.reactions[j].lower &&
      t.reactions[j].upper == s.reactions[j].upper &&
      (forall k :: k in s.reactions[j].stoichiometry ==> TurnoverId(k) in t.reactions[j].stoichiometry) &&
      t.constraints[..|s.constraints|] == s.constraints
  {
    SinkOfTurnover(s.metabolites, media, sinkBound, i);
    var ms := s.metabolites + Turnover(s.metabolites);
    assert ms[i] == s.metabolites[i];
    assert ms[|s.metabolites| + i] == TurnoverId(s.metabolites[i]);
    var t := Extended(s, media, sinkBound, fixBound);
    assert t.reactions[j] == WithTurnover(s.reactions[j]);
    WithTurnoverKeeps(s.reactions[j]);
    forall k | k in s.reactions[j].stoichiometry ensures TurnoverId(k) in t.reactions[j].stoichiometry {
      WithTurnoverMeaning(s.reactions[j], k);
    }
  }

  // ---------------------------------------------------------------------
  // The loops

  /** `for key, value in rxn.metabolites.items(): mets_to_add[...] = abs(value)`. */
  method TurnoverCoefficients(st: map<string, real>) returns (metsToAdd: map<string, real>)
    ensures metsToAdd == MetsToAdd(st)
  {
    metsToAdd := map[];
    var rest := st.Keys;
    while rest != {}
      invariant rest <= st.Keys
      invariant forall k :: k in st && k !in rest ==> TurnoverId(k) in metsToAdd && metsToAdd[TurnoverId(k)] == Abs(st[k])
      invariant forall t :: t in metsToAdd ==> Unprefixed(t) in st && Unprefixed(t) !in rest && t == TurnoverId(Unprefixed(t))
      decreases |rest|
    {
      var key :| key in rest;
      TurnoverIdInjective(key, key);
      forall k | k in st && k !in rest && k != key ensures TurnoverId(k) != TurnoverId(key) {
        TurnoverIdInjective(k, key);
      }
      metsToAdd := metsToAdd[TurnoverId(key) := Abs(st[key])];
      rest := rest - {key};
    }
    var add := MetsToAdd(st);
    forall t | t in add ensures t in metsToAdd {
      var k :| k in st && t == TurnoverId(k);
    }
    assert metsToAdd.Keys == add.Keys;
  }

  /** The turnover metabolites are made and added, one per metabolite. */
  method AddTurnoverMetabolites(m: Model)
    requires m.Valid() && m.scope.None?
    modifies m
    ensures m.Valid() && m.scope.None?
    ensures m.Snapshot() == old(m.Snapshot()).(metabolites := old(m.metabolites) + Turnover(old(m.metabolites)))
  {
    var ms := m.metabolites;
    var turnoverMets: seq<string> := [];
    var i := 0;
    while i < |ms|
      invariant 0 <= i <= |ms| && turnoverMets == Turnover(ms[..i])
    {
      turnoverMets := turnoverMets + ["TM_" + ms[i]];
      i := i + 1;
    }
    assert ms[..i] == ms;
    i := 0;
    while i < |turnoverMets|
      invariant 0 <= i <= |turnoverMets|
      invariant m.Valid() && m.scope.None?
      invariant m.Snapshot() == old(m.Snapshot()).(metabolites := ms + turnoverMets[..i])
    {
      assert turnoverMets[..i + 1] == turnoverMets[..i] + [turnoverMets[i]];
      m.Do(AddMetabolite(turnoverMets[i]));
      i := i + 1;
    }
    assert turnoverMets[..i] == turnoverMets;
  }

  /** Each reaction gains the turnover metabolites of its metabolites. */
  method AddTurnoverToReactions(m: Model)
    requires m.Valid() && m.scope.None?
    modifies m
    ensures m.Valid() && m.scope.None?
    ensures m.Snapshot() == old(m.Snapshot()).(reactions := Extend(old(m.reactions)))
  {
    ghost var rs := m.reactions;
    var i := 0;
    while i < |m.reactions|
      invariant 0 <= i <= |m.reactions| && |m.reactions| == |rs|
      invariant m.Valid() && m.scope.None?
      invariant m.Snapshot() == old(m.Snapshot()).(reactions := Extend(rs[..i]) + rs[i..])
    {
      ghost var before := m.Snapshot();
      var rxn := m.reactions[i];
      ExtendStep(rs, i);
      var metsToAdd := TurnoverCoefficients(rxn.stoichiometry);
      m.Do(SetReaction(i, rxn.(stoichiometry := Combine(rxn.stoichiometry, metsToAdd))));
      ExtendSnapshotStep(old(m.Snapshot()), before, rs, i);
      i := i + 1;
    }
    assert rs[..i] == rs;
  }

  lemma ExtendStep(rs: seq<Reaction>, i: nat)
    requires i < |rs|
    ensures (Extend(rs[..i]) + rs[i..])[i] == rs[i]
    ensures Extend(rs[..i + 1]) + rs[i + 1..] == (Extend(rs[..i]) + rs[i..])[i := WithTurnover(rs[i])]
  {
  }

  lemma ExtendSnapshotStep(s0: State, before: State, rs: seq<Reaction>, i: nat)
    requires i < |rs| && before == s0.(reactions := Extend(rs[..i]) + rs[i..])
    ensures before.(reactions := before.reactions[i := WithTurnover(rs[i])]) == s0.(reactions := Extend(rs[..i + 1]) + rs[i + 1..])
  {
    ExtendStep(rs, i);
  }

  /** One sink per turnover metabolite, in the model's order. */
  method AddSinks(m: Model, mediaMetabolites: seq<string>, bound: real)
    requires m.Valid() && m.scope.None?
    modifies m
    ensures m.Valid() && m.scope.None?
    ensures m.Snapshot() == old(m.Snapshot()).(reactions := old(m.reactions) + Sinks(old(m.metabolites), mediaMetabolites, bound))
  {
    var ms := m.metabolites;
    var i := 0;
    while i < |ms|
      invariant 0 <= i <= |ms|
      invariant m.Valid() && m.scope.None?
      invariant m.Snapshot() == old(m.Snapshot()).(reactions := old(m.reactions) + Sinks(ms[..i], mediaMetabolites, bound))
    {
      assert ms[..i + 1][..i] == ms[..i];
      var met := ms[i];
      if |met| >= 3 && met[..3] == "TM_" {
        var sinkRxn := Reaction("SK_" + met, 0.0, 1000.0, "", None, map[met := -2.0], false);
        if Unprefixed(met) in mediaMetabolites {
          sinkRxn := sinkRxn.(lower := bound);
        }
        m.Do(AddReaction(sinkRxn));
      }
      i := i + 1;
    }
    assert ms[..i] == ms;
  }

  /** The objective fixed as a constraint, then the turnover metabolites,
      their coefficients and the sinks. */
  method ExtendModel(m: Model, mediaMetabolites: seq<string>, sinkBound: real, fixBound: real)
    requires m.Valid() && m.scope.None?
    modifies m
    ensures m.Valid() && m.scope.None?
    ensures m.Snapshot() == Extended(old(m.Snapshot()), mediaMetabolites, sinkBound, fixBound)
  {
    m.Do(AddConstraint(FixObjective(m.objective, fixBound)));
    AddTurnoverMetabolites(m);
    AddTurnoverToReactions(m);
    AddSinks(m, mediaMetabolites, sinkBound);
  }

  /** `gim3e(...)`: the model is changed in place (nothing is undone) and
      the final solution is returned. */
  method Gim3e(m: Model, e: Profile.ExpressionProfile, metaboliteProfile: map<string, seq<string>>, media: string,
               optimumFraction: real, penaltyFraction: real, condition: Profile.Condition,
               tolerance: real, optimum: real, penaltyOptimum: real, x: Assignment)
    returns (r: Result<Solution>)
    requires m.Valid() && m.scope.None? && e.Valid()
    modifies m
    ensures m.Valid() && m.scope.None?
    ensures Outcome(m.Snapshot(), r) == Gim3eOf(old(m.Snapshot()), e.identifiers, e.conditions, e.expression,
                                                metaboliteProfile, media, optimumFraction, penaltyFraction,
                                                condition, tolerance, optimum, penaltyOptimum, x)
  {
    var mm := e.MinMax(None);
    if mm.Err? {
      return Err(mm.error);
    }
    var rs := m.reactions;
    var rxnProfile := LegacyProfile.LegacyToReactionDict(e, condition, rs, "or2max_and2min", Some(0.0));
    if rxnProfile.Err? {
      return Err(rxnProfile.error);
    }
    if media !in metaboliteProfile {
      return Err(KeyError);
    }
    var mediaMetabolites := metaboliteProfile[media];
    ExtendModel(m, mediaMetabolites, SinkBound(penaltyFraction, tolerance), FixedBound(optimumFraction, optimum));
    r := PenaltyPhase(m, rs, rxnProfile.value, ExpMax(mm.value), penaltyFraction, penaltyOptimum, x);
  }
}

