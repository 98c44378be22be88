/** FASTCC (fast consistency check): one LP that pushes a bounded
    auxiliary flux through every reaction at once; the reactions still
    carrying (almost) no flux in the solver's answer are blocked and are
    removed from a copy of the model. */
module Fastcc {
  import opened Wrappers
  import opened Metabolic

  function AuxName(id: string): string { "auxillary_" + id }

  /** The auxiliary variable of a reaction, within `[0, flux_threshold]`. */
  function AuxVar(r: Reaction, threshold: real): Variable {
    Variable(AuxName(r.id), Some(0.0), Some(threshold), false)
  }

  /** `forward + reverse - aux >= 0`. */
  function AuxConst(r: Reaction): Constraint {
    Constraint("constraint_" + r.id,
               [Term(Forward(r.id), 1.0), Term(Reverse(r.id), 1.0), Term(Aux(AuxName(r.id)), -1.0)],
               0.0, Some(0.0), None)
  }

  /** The auxiliary variable of a reaction only takes a value the
      reaction's total flux in both directions can cover. */
  lemma AuxConstMeaning(r: Reaction, x: Assignment)
    ensures Satisfies(AuxConst(r), x) <==> x(Aux(AuxName(r.id))) <= x(Forward(r.id)) + x(Reverse(r.id))
  {
    var t := AuxConst(r).terms;
    assert t[..2] == [t[0], t[1]];
    ValuePair(t[0], t[1], x);
  }

  datatype Additions = Additions(vars: seq<Variable>, cons: seq<Constraint>, objTerms: seq<Term>)

  /** What the loop over the model's reactions collects. */
  function Collected(rs: seq<Reaction>, threshold: real): (a: Additions)
    ensures |a.vars| == |rs| && |a.cons| == |rs| && |a.objTerms| == |rs|
    ensures forall i :: 0 <= i < |rs| ==>
      a.vars[i] == AuxVar(rs[i], threshold) && a.cons[i] == AuxConst(rs[i]) && a.objTerms[i] == Term(Aux(AuxName(rs[i].id)), 1.0)
  {
    if rs == [] then Additions([], [], [])
    else
      var n := |rs| - 1;
      var front := Collected(rs[..n], threshold);
      assert forall i :: 0 <= i < n ==> rs[..n][i] == rs[i];
      Additions(front.vars + [AuxVar(rs[n], threshold)], front.cons + [AuxConst(rs[n])],
                front.objTerms + [Term(Aux(AuxName(rs[n].id)), 1.0)])
  }

  /** The auxiliary LP: every variable and constraint added and the sum of
      the auxiliary variables maximised. */
  function FastccProblem(s: State, threshold: real): State {
    var a := Collected(s.reactions, threshold);
    s.(variables := s.variables + a.vars, constraints := s.constraints + a.cons,
       objective := Objective(a.objTerms, Maximize))
  }

  /** `[rxn_id for rxn_id, flux in sol.fluxes.iteritems() if abs(flux) < zero_cutoff]`. */
  function Blocked(fluxes: seq<Entry<real>>, zeroCutoff: real): (ids: seq<string>)
    ensures forall id :: id in ids <==> exists i :: 0 <= i < |fluxes| && fluxes[i].key == id && Abs(fluxes[i].value) < zeroCutoff
  {
    if fluxes == [] then []
    else
      var n := |fluxes| - 1;
      var front := Blocked(fluxes[..n], zeroCutoff);
      assert forall i :: 0 <= i < n ==> fluxes[..n][i] == fluxes[i];
      if Abs(fluxes[n].value) < zeroCutoff then front + [fluxes[n].key] else front
  }

  /** `remove_reactions(ids, remove_orphans=True)`: the reactions not named
      stay, in order; a metabolite goes when some removed reaction used it
      and no remaining one does. */
  function RemoveReactions(s: State, ids: seq<string>): (t: State)
    ensures forall r :: r in t.reactions <==> r in s.reactions && r.id !in ids
    ensures forall m :: m in t.metabolites <==> (m in s.metabolites &&
      ((exists r :: r in t.reactions && m in r.stoichiometry) ||
       !(exists r :: r in s.reactions && r.id in ids && m in r.stoichiometry)))
    ensures t.variables == s.variables && t.constraints == s.constraints && t.objective == s.objective
  {
    var kept := Keep(s.reactions, ids);
    s.(reactions := kept, metabolites := KeepMetabolites(s.metabolites, s.reactions, kept, ids))
  }

  function Keep(rs: seq<Reaction>, ids: seq<string>): (k: seq<Reaction>)
    ensures forall r :: r in k <==> r in rs && r.id !in ids
  {
    if rs == [] then []
    else
      var n := |rs| - 1;
      var front := Keep(rs[..n], ids);
      assert rs == rs[..n] + [rs[n]];
      if rs[n].id in ids then front else front + [rs[n]]
  }

  predicate Orphaned(m: string, all: seq<Reaction>, kept: seq<Reaction>, ids: seq<string>) {
    (exists r :: r in all && r.id in ids && m in r.stoichiometry) && !(exists r :: r in kept && m in r.stoichiometry)
  }

  function KeepMetabolites(ms: seq<string>, all: seq<Reaction>, kept: seq<Reaction>, ids: seq<string>): (k: seq<string>)
    ensures forall m :: m in k <==> m in ms && !Orphaned(m, all, kept, ids)
  {
    if ms == [] then []
    else
      var n := |ms| - 1;
      var front := KeepMetabolites(ms[..n], all, kept, ids);
      assert ms == ms[..n] + [ms[n]];
      if Orphaned(ms[n], all, kept, ids) then front else front + [ms[n]]
  }

  /** A reaction survives exactly when the solver's answer gives it a
      flux of at least `zero_cutoff` in absolute value. */
  lemma ConsistentKeeps(s: State, threshold: real, zeroCutoff: real, x: Assignment, r: Reaction)
    requires r in s.reactions
    requires UniqueIds(s.reactions)
    ensures var sol := Solve(FastccProblem(s, threshold), x);
      r in RemoveReactions(s, Blocked(sol.fluxes, zeroCutoff)).reactions <==> Abs(Flux(r.id, x)) >= zeroCutoff
  {
    var sol := Solve(FastccProblem(s, threshold), x);
    var i :| 0 <= i < |s.reactions| && s.reactions[i] == r;
    var ids := Blocked(sol.fluxes, zeroCutoff);
    if Abs(Flux(r.id, x)) < zeroCutoff {
      assert sol.fluxes[i].key == r.id;
      assert r.id in ids;
    }
  }

  /** The loop over the model's reactions. */
  method CollectAux(rs: seq<Reaction>, threshold: real) returns (vars: seq<Variable>, cons: seq<Constraint>, objVars: seq<Term>)
    ensures Additions(vars, cons, objVars) == Collected(rs, threshold)
  {
    vars, cons, objVars := [], [], [];
    var i := 0;
    while i < |rs|
      invariant 0 <= i <= |rs|
      invariant Additions(vars, cons, objVars) == Collected(rs[..i], threshold)
    {
      assert rs[..i + 1][..i] == rs[..i];
      var rxn := rs[i];
      var v := Variable(AuxName(rxn.id), Some(0.0), Some(threshold), false);
      var c := Constraint("constraint_" + rxn.id,
                          [Term(Forward(rxn.id), 1.0), Term(Reverse(rxn.id), 1.0), Term(Aux(v.name), -1.0)],
                          0.0, Some(0.0), None);
      vars, cons := vars + [v], cons + [c];
      objVars := objVars + [Term(Aux(v.name), 1.0)];
      i := i + 1;
    }
    assert rs[..i] == rs;
  }

  /** `fastcc(model, flux_threshold, zero_cutoff)`: the auxiliary LP is
      built inside `with model:`, so the model given is left as it was;
      the blocked reactions are removed from a copy taken afterwards,
      whose objective is the model's own. `x` is the solver's answer. */
  method FastCC(m: Model, threshold: real, zeroCutoff: real, x: Assignment) returns (consistent: Model)
    requires m.Valid() && m.scope.None?
    modifies m
    ensures m.Valid() && m.scope.None? && m.Snapshot() == old(m.Snapshot())
    ensures fresh(consistent) && consistent.Valid() && consistent.scope.None?
    ensures consistent.Snapshot() ==
      RemoveReactions(old(m.Snapshot()), Blocked(Solve(FastccProblem(old(m.Snapshot()), threshold), x).fluxes, zeroCutoff))
  {
    m.Enter();
    ghost var s0 := m.Snapshot();
    var rs := m.reactions;
    var varsAndCons, cons, objVars := CollectAux(rs, threshold);
    m.Do(AddConsVars(varsAndCons, cons));
    m.Do(SetObjective(Objective(objVars, Maximize)));
    assert m.Snapshot() == FastccProblem(s0, threshold);
    var sol := Solve(m.Snapshot(), x);
    m.Exit();
    var rxnsToRemove := Blocked(sol.fluxes, zeroCutoff);
    consistent := m.Copy();
    consistent.Load(RemoveReactions(consistent.Snapshot(), rxnsToRemove));
    consistent.Load(consistent.Snapshot().(objective := m.objective));
  }
}
