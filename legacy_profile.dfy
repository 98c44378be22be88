/** The parts of the older `ExpressionProfile` that differ from the newer
    one: its p-value getter tests the stored array with `not`, its
    `data_frame` adds the p-values to the expression instead of placing them
    beside it, and its `to_reaction_dict` evaluates the rule text with the
    policy and cutoff the caller names. The constructor, lookups, `to_dict`,
    `minmax`, `from_data_frame`, `from_csv`, `p_value_columns`, the setter
    and the deleter are the same code in both and are modelled once, in
    `Profile`. */
module LegacyProfile {
  import opened Wrappers
  import opened Tables
  import Gpr
  import Metabolic
  import RuleText
  import Profile

  // ---------------------------------------------------------------------
  // The p_values getter

  /** A single non-zero entry: the only array `not` lets through. */
  predicate SingleNonZero(p: Matrix) {
    |p.rows| == 1 && p.width == 1 && |p.rows[0]| == 1 && p.rows[0][0] != 0.0
  }

  /** The getter as written: `not None` is true, `not` of a one-entry array
      tests that entry, an empty array is falsy and a larger one cannot be
      truth-tested; every refusal is a ValueError. */
  function LegacyPValuesAsWritten(p: Option<Matrix>): (r: Result<Matrix>)
    ensures r.Ok? <==> p.Some? && SingleNonZero(p.value)
    ensures r.Ok? ==> r.value == p.value
    ensures r.Err? ==> r.error == ValueError
  {
    if p.Some? && SingleNonZero(p.value) then Ok(p.value) else Err(ValueError)
  }

  /** Two identifiers with one p-value each are refused by the older
      getter, while the corrected getter returns them; wherever the older
      getter succeeds the two agree. */
  lemma LegacyPValuesRefused(q: Option<Matrix>)
    ensures LegacyPValuesAsWritten(Some(Matrix([[0.02], [0.048]], 1))) == Err(ValueError)
    ensures Profile.PValuesOf(Some(Matrix([[0.02], [0.048]], 1))) == Ok(Matrix([[0.02], [0.048]], 1))
    ensures LegacyPValuesAsWritten(q).Ok? ==> Profile.PValuesOf(q) == LegacyPValuesAsWritten(q)
  {
  }

  /** `differences` of the older profile: the same loop, fed by the older
      getter. */
  function LegacyDifferencesOf(ids: seq<string>, m: Matrix, p: Option<Matrix>, t: real): (r: Result<map<string, seq<int>>>)
    requires m.Valid() && m.Height() == |ids|
  {
    Profile.DifferencesOf(ids, m, LegacyPValuesAsWritten(p), t)
  }

  /** With the older getter `differences` only succeeds when there is
      nothing to compare, or for a single identifier with two conditions
      and one non-zero p-value. */
  lemma LegacyDifferencesOk(ids: seq<string>, m: Matrix, p: Option<Matrix>, t: real)
    requires m.Valid() && m.Height() == |ids|
    ensures LegacyDifferencesOf(ids, m, p, t).Ok?
        <==> |ids| == 0 || m.width <= 1 || (|ids| == 1 && m.width == 2 && p.Some? && SingleNonZero(p.value))
  {
  }

  // ---------------------------------------------------------------------
  // The data_frame property

  /** `expression + p_values` once the getter has let a single entry `x`
      through: numpy broadcasts it to every cell. */
  function Shift(m: Matrix, x: real): (r: Matrix)
    requires m.Valid()
    ensures r.Valid() && r.Height() == m.Height() && r.width == m.width
    ensures forall i, j :: 0 <= i < |m.rows| && 0 <= j < m.width ==> r.rows[i][j] == m.rows[i][j] + x
  {
    Matrix(seq(|m.rows|, i requires 0 <= i < |m.rows| =>
             seq(m.width, j requires 0 <= j < m.width => m.rows[i][j] + x)), m.width)
  }

  /** `data_frame` of the older profile, as written: with p-values, the
      getter runs, the sum is taken, and pandas refuses values whose width
      is not the number of labels. */
  function LegacyFrameAsWritten(ids: seq<string>, conds: seq<string>, m: Matrix, p: Option<Matrix>): (r: Result<Frame>)
    requires Profile.ShapeOk(|ids|, |conds|, m) && (p.Some? ==> p.value.Valid())
    ensures p.None? ==> r == Profile.FrameOf(ids, conds, m, p)
    ensures p.Some? ==> (r.Ok? <==> SingleNonZero(p.value) && |Profile.PValueColumns(conds)| == 0)
    ensures r.Err? ==> r.error == ValueError
    ensures p.Some? && r.Ok? ==> r.value == Frame(ids, conds, Shift(m, p.value.rows[0][0]))
  {
    if p.None? then Ok(Frame(ids, conds, m))
    else
      var pv := LegacyPValuesAsWritten(p);
      if pv.Err? then Err(ValueError)
      else
        var sum := Shift(m, pv.value.rows[0][0]);
        var labels := conds + Profile.PValueColumns(conds);
        if sum.width != |labels| then Err(ValueError)
        else
          assert labels == conds;
          Ok(Frame(ids, labels, sum))
  }

  /** With two or more conditions, the older `data_frame` refuses every
      profile that has p-values. */
  lemma LegacyFrameRefused(ids: seq<string>, conds: seq<string>, m: Matrix, p: Matrix)
    requires Profile.ShapeOk(|ids|, |conds|, m) && p.Valid() && |conds| >= 2
    ensures LegacyFrameAsWritten(ids, conds, m, Some(p)) == Err(ValueError)
  {
    var n := |conds|;
    Profile.PairsFromLength(0, n);
    assert n * (n - 1) >= n;
  }

  /** One identifier, two conditions and their p-value: the older property
      fails, the corrected one lays the p-value column beside the
      expression. */
  lemma LegacyFrameExample()
    ensures LegacyFrameAsWritten(["G"], ["T1", "T2"], Matrix([[1.0, 2.0]], 2), Some(Matrix([[0.01]], 1)))
         == Err(ValueError)
    ensures Profile.FrameOf(["G"], ["T1", "T2"], Matrix([[1.0, 2.0]], 2), Some(Matrix([[0.01]], 1)))
         == Ok(Frame(["G"], ["T1", "T2", "T1 T2 p-value"], Matrix([[1.0, 2.0, 0.01]], 3)))
  {
    var m, p := Matrix([[1.0, 2.0]], 2), Matrix([[0.01]], 1);
    LegacyFrameRefused(["G"], ["T1", "T2"], m, p);
    Profile.PValueColumnsTwo();
    var h := HConcat(m, p);
    assert h.rows[0] == [1.0, 2.0] + [0.01] == [1.0, 2.0, 0.01];
    assert |h.rows| == 1 && h.width == 3;
    assert h.rows == [[1.0, 2.0, 0.01]];
    assert ["T1", "T2"] + ["T1 T2 p-value"] == ["T1", "T2", "T1 T2 p-value"];
  }
  // ---------------------------------------------------------------------
  // to_reaction_dict

  /** The value `cutoff` stands for: `None` is an argument that is not a
      number (a function passed in its place), which sympy refuses to
      substitute for a gene. */
  function Fill(cutoff: Option<real>): real {
    if cutoff.Some? then cutoff.value else 0.0
  }

  /** One profiled reaction's value: its rule text evaluated with `map_by`,
      its genes missing from the profile read as `cutoff`. A rule text that
      does not parse raises first; a missing gene whose stand-in is not a
      number makes the substitution raise ValueError. */
  function LegacyReactionValue(r: Metabolic.Reaction, exp: map<string, real>, mapBy: string, cutoff: Option<real>)
    : (v: Result<Option<real>>)
    ensures cutoff.Some? ==> v == RuleText.TextMapGeneToRxn(r.gpr, mapBy, Profile.GeneValues(r.Genes(), exp, cutoff.value))
    ensures v.Err? && RuleText.PythonExpression(r.gpr).Ok? ==> cutoff.None? && v.error == ValueError && !(r.Genes() <= exp.Keys)
  {
    var v := RuleText.TextMapGeneToRxn(r.gpr, mapBy, Profile.GeneValues(r.Genes(), exp, Fill(cutoff)));
    if v.Err? then v
    else if cutoff.None? && !(r.Genes() <= exp.Keys) then Err(ValueError)
    else v
  }

  /** What the older `to_reaction_dict` collects: each profiled reaction's
      value; the first reaction whose value raises ends the loop. */
  function LegacyReactionProfile(rs: seq<Metabolic.Reaction>, ids: seq<string>, exp: map<string, real>,
                                 mapBy: string, cutoff: Option<real>): (r: Result<map<string, Option<real>>>)
    ensures r.Ok? ==> forall k :: k in r.value <==> exists i :: 0 <= i < |rs| && rs[i].id == k && Profile.Profiled(rs[i], ids)
  {
    if rs == [] then Ok(map[])
    else
      var n := |rs| - 1;
      var front := LegacyReactionProfile(rs[..n], ids, exp, mapBy, cutoff);
      assert forall i :: 0 <= i < n ==> rs[..n][i] == rs[i];
      if front.Err? then front
      else if !Profile.Profiled(rs[n], ids) then front
      else
        var v := LegacyReactionValue(rs[n], exp, mapBy, cutoff);
        if v.Err? then Err(v.error) else Ok(front.value[rs[n].id := v.value])
  }

  /** One more reaction: skipped when unprofiled, otherwise its value
      recorded, or its error returned. */
  lemma LegacyPrefixStep(rs: seq<Metabolic.Reaction>, ids: seq<string>, exp: map<string, real>,
                         mapBy: string, cutoff: Option<real>, k: nat, acc: map<string, Option<real>>)
    requires k < |rs| && LegacyReactionProfile(rs[..k], ids, exp, mapBy, cutoff) == Ok(acc)
    ensures var v := LegacyReactionValue(rs[k], exp, mapBy, cutoff);
      LegacyReactionProfile(rs[..k + 1], ids, exp, mapBy, cutoff) ==
        if !Profile.Profiled(rs[k], ids) then Ok(acc)
        else if v.Err? then Err(v.error) else Ok(acc[rs[k].id := v.value])
  {
    assert rs[..k + 1][..k] == rs[..k];
  }

  /** Once a prefix of the reactions fails, the whole loop fails with the
      same error. */
  lemma {:induction false} LegacyErrorSticks(rs: seq<Metabolic.Reaction>, ids: seq<string>, exp: map<string, real>,
                                             mapBy: string, cutoff: Option<real>, j: nat)
    requires j <= |rs| && LegacyReactionProfile(rs[..j], ids, exp, mapBy, cutoff).Err?
    ensures LegacyReactionProfile(rs, ids, exp, mapBy, cutoff) == LegacyReactionProfile(rs[..j], ids, exp, mapBy, cutoff)
    decreases |rs| - j
  {
    if j < |rs| {
      var n := |rs[..j + 1]| - 1;
      assert rs[..j + 1][..n] == rs[..j];
      LegacyErrorSticks(rs, ids, exp, mapBy, cutoff, j + 1);
    } else {
      assert rs[..j] == rs;
    }
  }

  /** Rules given as their fully parenthesised text over clean gene ids. */
  predicate Rendered(rs: seq<Metabolic.Reaction>, ids: seq<string>) {
    forall i :: 0 <= i < |rs| && Profile.Profiled(rs[i], ids) ==>
      rs[i].rule.Some? && rs[i].gpr == RuleText.Show(rs[i].rule.value) && RuleText.Clean(rs[i].rule.value)
  }

  lemma {:induction false} LegacyOk(rs: seq<Metabolic.Reaction>, ids: seq<string>, exp: map<string, real>, mapBy: string, cutoff: real)
    requires Rendered(rs, ids)
    ensures LegacyReactionProfile(rs, ids, exp, mapBy, Some(cutoff)).Ok?
  {
    if rs != [] {
      var n := |rs| - 1;
      assert Rendered(rs[..n], ids) by {
        assert forall i :: 0 <= i < n ==> rs[..n][i] == rs[i];
      }
      LegacyOk(rs[..n], ids, exp, mapBy, cutoff);
      if Profile.Profiled(rs[n], ids) {
        RuleText.TextMapGeneToRxnShow(rs[n].rule.value, mapBy, Profile.GeneValues(rs[n].Genes(), exp, cutoff));
      }
    }
  }

  /** One step of the loop: the last reaction leaves the earlier entries
      alone unless it has the same id. */
  lemma LegacyStep(rs: seq<Metabolic.Reaction>, ids: seq<string>, exp: map<string, real>,
                   mapBy: string, cutoff: Option<real>, k: string)
    requires |rs| > 0 && LegacyReactionProfile(rs, ids, exp, mapBy, cutoff).Ok?
    requires k != rs[|rs| - 1].id
    ensures LegacyReactionProfile(rs[..|rs| - 1], ids, exp, mapBy, cutoff).Ok?
    ensures k in LegacyReactionProfile(rs[..|rs| - 1], ids, exp, mapBy, cutoff).value ==>
      LegacyReactionProfile(rs, ids, exp, mapBy, cutoff).value[k] == LegacyReactionProfile(rs[..|rs| - 1], ids, exp, mapBy, cutoff).value[k]
  {
  }

  /** The last reaction, when profiled, holds its rule's value. */
  lemma LegacyLast(rs: seq<Metabolic.Reaction>, ids: seq<string>, exp: map<string, real>, mapBy: string, cutoff: real)
    requires |rs| > 0 && Rendered(rs, ids) && Profile.Profiled(rs[|rs| - 1], ids)
    ensures LegacyReactionProfile(rs, ids, exp, mapBy, Some(cutoff)).Ok?
    ensures var x := rs[|rs| - 1];
      LegacyReactionProfile(rs, ids, exp, mapBy, Some(cutoff)).value[x.id]
        == Some(Gpr.Activity(x.rule.value, Gpr.PolicyOf(mapBy), Profile.GeneValues(x.Genes(), exp, cutoff)))
  {
    var n := |rs| - 1;
    LegacyOk(rs, ids, exp, mapBy, cutoff);
    RuleText.TextMapGeneToRxnShow(rs[n].rule.value, mapBy, Profile.GeneValues(rs[n].Genes(), exp, cutoff));
  }

  /** On rendered rules with distinct reaction ids, each profiled reaction
      holds its policy's activity over its genes, a gene missing from the
      profile counting as `cutoff`. */
  lemma {:induction false} LegacyReactionProfileAt(rs: seq<Metabolic.Reaction>, ids: seq<string>, exp: map<string, real>,
                                                   mapBy: string, cutoff: real, i: nat)
    requires Metabolic.UniqueIds(rs) && Rendered(rs, ids) && i < |rs| && Profile.Profiled(rs[i], ids)
    ensures LegacyReactionProfile(rs, ids, exp, mapBy, Some(cutoff)).Ok?
    ensures LegacyReactionProfile(rs, ids, exp, mapBy, Some(cutoff)).value[rs[i].id]
         == Some(Gpr.Activity(rs[i].rule.value, Gpr.PolicyOf(mapBy), Profile.GeneValues(rs[i].Genes(), exp, cutoff)))
  {
    LegacyOk(rs, ids, exp, mapBy, cutoff);
    var n := |rs| - 1;
    if i < n {
      var front := rs[..n];
      assert front[i] == rs[i];
      assert Metabolic.UniqueIds(front) && Rendered(front, ids) by {
        assert forall a :: 0 <= a < n ==> front[a] == rs[a];
      }
      LegacyReactionProfileAt(front, ids, exp, mapBy, cutoff, i);
      LegacyStep(rs, ids, exp, mapBy, Some(cutoff), rs[i].id);
    } else {
      LegacyLast(rs, ids, exp, mapBy, cutoff);
    }
  }

  /** With the newer profile's fixed policy and cutoff, the older text path
      gives what the newer tree path gives. */
  lemma LegacyAgreesWithProfile(rs: seq<Metabolic.Reaction>, ids: seq<string>, exp: map<string, real>, i: nat)
    requires Metabolic.UniqueIds(rs) && Rendered(rs, ids) && i < |rs| && Profile.Profiled(rs[i], ids)
    ensures LegacyReactionProfile(rs, ids, exp, "or2max_and2min", Some(0.0)).Ok?
    ensures LegacyReactionProfile(rs, ids, exp, "or2max_and2min", Some(0.0)).value[rs[i].id]
         == Some(Profile.ReactionProfile(rs, ids, exp)[rs[i].id])
  {
    LegacyReactionProfileAt(rs, ids, exp, "or2max_and2min", 0.0, i);
    Profile.ReactionProfileMeaning(rs, ids, exp, i);
  }

  /** `to_reaction_dict(condition, model, map_by, cutoff)` of the older
      profile. */
  method LegacyToReactionDict(e: Profile.ExpressionProfile, c: Profile.Condition, rs: seq<Metabolic.Reaction>,
                              mapBy: string, cutoff: Option<real>)
    returns (r: Result<map<string, Option<real>>>)
    requires e.Valid()
    ensures e.ToDict(c).Err? ==> r == Err(e.ToDict(c).error)
    ensures e.ToDict(c).Ok? ==> r == LegacyReactionProfile(rs, e.identifiers, e.ToDict(c).value, mapBy, cutoff)
  {
    var geneExp := e.ToDict(c);
    if geneExp.Err? {
      return Err(geneExp.error);
    }
    r := LegacyReactionLoop(rs, e.identifiers, geneExp.value, mapBy, cutoff);
  }

  /** The loop of the older `to_reaction_dict` over the model's reactions,
      for the condition's gene values `exp`. */
  method LegacyReactionLoop(rs: seq<Metabolic.Reaction>, ids: seq<string>, exp: map<string, real>,
                            mapBy: string, cutoff: Option<real>)
    returns (r: Result<map<string, Option<real>>>)
    ensures r == LegacyReactionProfile(rs, ids, exp, mapBy, cutoff)
  {
    var rxnExp: map<string, Option<real>> := map[];
    var k := 0;
    while k < |rs|
      invariant 0 <= k <= |rs|
      invariant LegacyReactionProfile(rs[..k], ids, exp, mapBy, cutoff) == Ok(rxnExp)
    {
      var rxn := rs[k];
      LegacyPrefixStep(rs, ids, exp, mapBy, cutoff, k, rxnExp);
      if exists g :: g in rxn.Genes() && g in ids {
        var gv := Profile.GeneValues(rxn.Genes(), exp, Fill(cutoff));
        var v := RuleText.TextMapGeneToRxn(rxn.gpr, mapBy, gv);
        if v.Ok? && cutoff.None? && !(rxn.Genes() <= exp.Keys) {
          v := Err(ValueError);
        }
        assert v == LegacyReactionValue(rxn, exp, mapBy, cutoff);
        if v.Err? {
          LegacyErrorSticks(rs, ids, exp, mapBy, cutoff, k + 1);
          return Err(v.error);
        }
        rxnExp := rxnExp[rxn.id := v.value];
      }
      k := k + 1;
    }
    assert rs[..|rs|] == rs;
    return Ok(rxnExp);
  }
}
