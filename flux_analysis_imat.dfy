/** The older package's iMAT of `driven.flux_analysis.imat`: the same
    problem as the newer one, but the reaction profile comes from the older
    profile's text path, `to_reaction_dict(condition, model)`. A value that
    path leaves symbolic cannot be compared with the high cutoff, and the
    comparison raises TypeError inside `with model:`. */
module FluxAnalysisImat {
  import opened Wrappers
  import opened Metabolic
  import Gpr
  import RuleText
  import Profile
  import LegacyProfile
  import Transcriptomics
  import Newer = Imat

  /** The numeric entries of an older reaction profile. */
  function Known(profile: map<string, Option<real>>): (d: map<string, real>)
    ensures forall k :: k in d <==> k in profile && profile[k].Some?
    ensures forall k :: k in d ==> profile[k] == Some(d[k])
  {
    map k | k in profile && profile[k].Some? :: profile[k].value
  }

  /** `imat(model, expression_profile, cutoff, epsilon, condition)` for
      the gene values `exp` of the condition (or the error reading them):
      ValueError on inverted cutoffs before anything else; then the
      profile's own errors; then TypeError when some profiled value is
      still symbolic; otherwise the iMAT problem over the numeric profile,
      solved with `x`. */
  function ImatOf(s: State, ids: seq<string>, exp: Result<map<string, real>>, low: real, high: real, epsilon: real,
                  x: Assignment): (r: Result<Solution>)
    ensures low > high ==> r == Err(ValueError)
    ensures low <= high && exp.Err? ==> r == Err(exp.error)
  {
    if low > high then Err(ValueError)
    else if exp.Err? then Err(exp.error)
    else
      var p := LegacyProfile.LegacyReactionProfile(s.reactions, ids, exp.value, "or2max_and2min", Some(0.0));
      if p.Err? then Err(p.error)
      else
        var v := Transcriptomics.Numeric(p.value);
        if v.Err? then Err(v.error)
        else Ok(Solve(Newer.ImatProblem(s, v.value, low, high, epsilon), x))
  }

  /** A profile whose every value is numeric is its own numeric
      version. */
  lemma NumericOf(profile: map<string, Option<real>>, d: map<string, real>)
    requires profile.Keys == d.Keys && forall k :: k in profile ==> profile[k] == Some(d[k])
    ensures Transcriptomics.Numeric(profile) == Ok(d)
  {
    assert !exists k :: k in profile && profile[k].None?;
    var v := Transcriptomics.Numeric(profile);
    assert v.value == d;
  }

  /** On rules given as their parenthesised text over clean gene ids the
      older profile is numeric and equal to the newer one. */
  lemma LegacyNumericAgrees(rs: seq<Reaction>, ids: seq<string>, exp: map<string, real>)
    requires UniqueIds(rs) && LegacyProfile.Rendered(rs, ids)
    ensures var p := LegacyProfile.LegacyReactionProfile(rs, ids, exp, "or2max_and2min", Some(0.0));
      p.Ok? && Transcriptomics.Numeric(p.value) == Ok(Profile.ReactionProfile(rs, ids, exp))
  {
    var p := LegacyProfile.LegacyReactionProfile(rs, ids, exp, "or2max_and2min", Some(0.0));
    LegacyProfile.LegacyOk(rs, ids, exp, "or2max_and2min", 0.0);
    var d := Profile.ReactionProfile(rs, ids, exp);
    SameKeys(rs, ids, p.value, d);
    forall k | k in p.value
      ensures p.value[k] == Some(d[k])
    {
      var i :| 0 <= i < |rs| && rs[i].id == k && Profile.Profiled(rs[i], ids);
      LegacyProfile.LegacyAgreesWithProfile(rs, ids, exp, i);
    }
    NumericOf(p.value, d);
  }

  /** Two maps keyed by the same profiled reactions have the same keys. */
  lemma SameKeys<V, W>(rs: seq<Reaction>, ids: seq<string>, a: map<string, V>, b: map<string, W>)
    requires forall k :: k in a <==> exists i :: 0 <= i < |rs| && rs[i].id == k && Profile.Profiled(rs[i], ids)
    requires forall k :: k in b <==> exists i :: 0 <= i < |rs| && rs[i].id == k && Profile.Profiled(rs[i], ids)
    ensures a.Keys == b.Keys
  {
  }

  /** The older iMAT builds and solves the newer iMAT's problem whenever
      the older profile's text path reads the rules as the newer tree path
      does. */
  lemma ImatOfRendered(s: State, ids: seq<string>, exp: map<string, real>, low: real, high: real, epsilon: real,
                       x: Assignment)
    requires UniqueIds(s.reactions) && LegacyProfile.Rendered(s.reactions, ids) && low <= high
    ensures ImatOf(s, ids, Ok(exp), low, high, epsilon, x)
         == Ok(Solve(Newer.ImatProblem(s, Profile.ReactionProfile(s.reactions, ids, exp), low, high, epsilon), x))
  {
    LegacyNumericAgrees(s.reactions, ids, exp);
  }

  /** A reaction whose only gene is `cor1`, the id the text rewrite turns
      into `c+1`. */
  function CorReaction(): Reaction {
    Reaction("R", 0.0, 10.0, "cor1", Some(Gpr.Gene("cor1")), map[], false)
  }

  /** The older profile leaves the `cor1` reaction symbolic. */
  lemma LegacyCorProfile()
    ensures LegacyProfile.LegacyReactionProfile([CorReaction()], ["cor1"], map["cor1" := 5.0], "or2max_and2min", Some(0.0))
         == Ok(map["R" := None])
  {
    var r := CorReaction();
    assert r.Genes() == {"cor1"};
    assert "cor1" in r.Genes();
    assert Profile.Profiled(r, ["cor1"]);
    assert Profile.GeneValues(r.Genes(), map["cor1" := 5.0], 0.0) == map["cor1" := 5.0];
    RuleText.GeneIdRewritten();
    assert [r][..0] == [];
  }

  /** The newer profile reads the gene's value. */
  lemma NewerCorProfile()
    ensures Profile.ReactionProfile([CorReaction()], ["cor1"], map["cor1" := 5.0]) == map["R" := 5.0]
  {
    var r := CorReaction();
    var exp := map["cor1" := 5.0];
    assert r.Genes() == {"cor1"};
    assert "cor1" in r.Genes();
    assert Profile.Profiled(r, ["cor1"]);
    var gv := Profile.GeneValues(r.Genes(), exp, 0.0);
    assert gv == map["cor1" := 5.0];
    Profile.ReactionProfileMeaning([r], ["cor1"], exp, 0);
    assert Gpr.Activity(Gpr.Gene("cor1"), Gpr.Or2MaxAnd2Min, gv) == 5.0;
    SameKeys([r], ["cor1"], Profile.ReactionProfile([r], ["cor1"], exp), map["R" := 5.0]);
  }

  /** With `cor1` in the profile the older iMAT raises TypeError, where the
      newer one, reading the gene's value, solves its problem. */
  lemma ImatSymbolicExample(s: State, x: Assignment)
    requires s.reactions == [CorReaction()]
    ensures ImatOf(s, ["cor1"], Ok(map["cor1" := 5.0]), 0.0, 1.0, 1.0, x) == Err(TypeError)
    ensures Profile.ReactionProfile(s.reactions, ["cor1"], map["cor1" := 5.0]) == map["R" := 5.0]
  {
    LegacyCorProfile();
    NewerCorProfile();
    var p: map<string, Option<real>> := map["R" := None];
    assert "R" in p && p["R"].None?;
  }

  lemma CollectedStep(rs: seq<Reaction>, profile: map<string, real>, low: real, high: real, epsilon: real, i: nat)
    requires i < |rs|
    ensures Newer.Collected(rs[..i + 1], profile, low, high, epsilon)
         == if rs[i].id in profile
            then Newer.Join(Newer.Collected(rs[..i], profile, low, high, epsilon), Newer.Part(rs[i], profile[rs[i].id], low, high, epsilon))
            else Newer.Collected(rs[..i], profile, low, high, epsilon)
  {
    assert rs[..i + 1][..i] == rs[..i];
  }

  /** The loop over the reaction profile, in model order; a symbolic value
      raises TypeError at its comparison. The profile holds reactions of
      the model only. */
  method Collect(rs: seq<Reaction>, profile: map<string, Option<real>>, low: real, high: real, epsilon: real)
    returns (r: Result<Newer.Additions>)
    requires forall k :: k in profile ==> exists i :: 0 <= i < |rs| && rs[i].id == k
    ensures var v := Transcriptomics.Numeric(profile);
      r == if v.Err? then Err(TypeError) else Ok(Newer.Collected(rs, v.value, low, high, epsilon))
  {
    var known := Known(profile);
    var consVars: seq<Variable>, consts: seq<Constraint>, yVars: seq<Term>, xVars: seq<Term> := [], [], [], [];
    var i := 0;
    while i < |rs|
      invariant 0 <= i <= |rs|
      invariant forall j :: 0 <= j < i && rs[j].id in profile ==> profile[rs[j].id].Some?
      invariant Newer.Additions(consVars, consts, yVars, xVars) == Newer.Collected(rs[..i], known, low, high, epsilon)
    {
      CollectedStep(rs, known, low, high, epsilon, i);
      var rxn := rs[i];
      if rxn.id in profile {
        if profile[rxn.id].None? {
          assert rxn.id in profile && profile[rxn.id].None?;
          return Err(TypeError);
        }
        var expression := profile[rxn.id].value;
        if expression > high {
          yVars := yVars + [Term(Aux(Newer.YPos(rxn.id)), 1.0), Term(Aux(Newer.YNeg(rxn.id)), 1.0)];
          consVars := consVars + [Newer.Binary(Newer.YPos(rxn.id)), Newer.Binary(Newer.YNeg(rxn.id))];
          consts := consts + [Newer.PosConst(rxn, epsilon), Newer.NegConst(rxn, epsilon)];
        } else if expression < low {
          xVars := xVars + [Term(Aux(Newer.XName(rxn.id)), 1.0)];
          consVars := consVars + [Newer.Binary(Newer.XName(rxn.id))];
          consts := consts + [Newer.XUpper(rxn), Newer.XLower(rxn)];
        }
      }
      i := i + 1;
    }
    assert rs[..i] == rs;
    forall k | k in profile ensures profile[k].Some? {
      var j :| 0 <= j < |rs| && rs[j].id == k;
    }
    NumericOf(profile, known);
    return Ok(Newer.Additions(consVars, consts, yVars, xVars));
  }

  /** `imat(model, expression_profile, cutoff, epsilon, condition)`: the
      edits are made inside `with model:`, so the model is as it was when
      the call returns or raises. `x` is the solver's answer. */
  method Imat(m: Model, e: Profile.ExpressionProfile, low: real, high: real, epsilon: real,
              condition: Profile.Condition, x: Assignment)
    returns (r: Result<Solution>)
    requires m.Valid() && m.scope.None? && e.Valid()
    modifies m
    ensures m.Valid() && m.scope.None? && m.Snapshot() == old(m.Snapshot())
    ensures r == ImatOf(old(m.Snapshot()), e.identifiers, e.ToDict(condition), low, high, epsilon, x)
  {
    if low > high {
      return Err(ValueError);
    }
    m.Enter();
    ghost var s0 := m.Snapshot();
    var rs := m.reactions;
    var rxnProfile := LegacyProfile.LegacyToReactionDict(e, condition, rs, "or2max_and2min", Some(0.0));
    if rxnProfile.Err? {
      m.Exit();
      return Err(rxnProfile.error);
    }
    var a := Collect(rs, rxnProfile.value, low, high, epsilon);
    if a.Err? {
      m.Exit();
      return Err(a.error);
    }
    m.Do(AddConsVars(a.value.vars, a.value.cons));
    m.Do(SetObjective(Objective(a.value.yTerms + a.value.xTerms, Maximize)));
    assert m.Snapshot() == Newer.ImatProblem(s0, Transcriptomics.Numeric(rxnProfile.value).value, low, high, epsilon);
    var sol := Solve(m.Snapshot(), x);
    m.Exit();
    return Ok(sol);
  }
}
