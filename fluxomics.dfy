/** Flux balance analysis under measured fluxes: each reaction of a
    `FluxConstraints` container gets the bounds of its row, widened by a
    relative margin (`fluxomics.fba`, both repository generations) or
    exactly (`c13.fba`), the model is solved, and every bound is put back
    afterwards. The solver's answer is an input. */
module Fluxomics {
  import opened Wrappers
  import opened Metabolic
  import Fluxes
  import Dicts

  /** `distribution[reaction_id]` as a pair: the row of the id's last
      occurrence. */
  function Row(fc: Fluxes.FluxConstraints, id: string): (real, real)
    requires fc.Valid() && id in fc.reactionIds
  {
    var row := fc.limits.rows[Dicts.LastIndex(fc.reactionIds, id).value];
    (row[0], row[1])
  }

  /** The relaxed bounds of the `k`-th id's row. */
  function Target(fc: Fluxes.FluxConstraints, k: nat, relax: real): (real, real)
    requires fc.Valid() && k < |fc.reactionIds|
  {
    var b := Row(fc, fc.reactionIds[k]);
    Relaxed(b.0, b.1, relax)
  }

  /** `Row` is what `__getitem__` gives for the id. */
  lemma RowIsItem(fc: Fluxes.FluxConstraints, id: string)
    requires fc.Valid() && id in fc.reactionIds
    ensures Fluxes.GetItem(fc, Fluxes.Id(id)).Ok?
    ensures var row := Fluxes.GetItem(fc, Fluxes.Id(id)).value; |row| == 2 && Row(fc, id) == (row[0], row[1])
  {
  }

  /** `bounds[0] - bounds[0] * relax, bounds[1] + bounds[1] * relax`, as
      written: the margin carries the sign of the bound. */
  function RelaxedAsWritten(lo: real, hi: real, relax: real): (real, real) {
    (lo - lo * relax, hi + hi * relax)
  }

  /** The relaxation evidently meant: each bound moves outwards by the
      fraction `relax` of its size. */
  function Relaxed(lo: real, hi: real, relax: real): (real, real) {
    (lo - Margin(lo, relax), hi + Margin(hi, relax))
  }

  /** The fraction `relax` of a bound's size. */
  function Margin(v: real, relax: real): real {
    Abs(v) * relax
  }

  /** As written, a negative lower bound or a negative upper bound moves
      inwards: the measured interval `[-10, -5]` becomes `[-9.9, -5.05]`,
      and the single value `-10` becomes the empty interval
      `[-9.9, -10.1]`. */
  lemma RelaxedAsWrittenTightens()
    ensures RelaxedAsWritten(-10.0, -5.0, 0.01) == (-9.9, -5.05)
    ensures RelaxedAsWritten(-10.0, -10.0, 0.01) == (-9.9, -10.1)
  {
  }

  /** With a margin that is not negative the relaxed bounds contain the
      measured interval, and so remain ordered when it is. */
  lemma RelaxedContains(lo: real, hi: real, relax: real)
    requires relax >= 0.0
    ensures Relaxed(lo, hi, relax).0 <= lo && hi <= Relaxed(lo, hi, relax).1
    ensures lo <= hi ==> Relaxed(lo, hi, relax).0 <= Relaxed(lo, hi, relax).1
  {
    assert Margin(lo, relax) >= 0.0 && Margin(hi, relax) >= 0.0;
  }

  /** The correction only changes negative bounds: on a non-negative
      lower bound and a non-negative upper bound both formulas agree,
      and with a positive margin they differ on each negative one. */
  lemma RelaxedAgrees(lo: real, hi: real, relax: real)
    ensures lo >= 0.0 ==> Relaxed(lo, hi, relax).0 == RelaxedAsWritten(lo, hi, relax).0
    ensures hi >= 0.0 ==> Relaxed(lo, hi, relax).1 == RelaxedAsWritten(lo, hi, relax).1
    ensures relax > 0.0 && lo < 0.0 ==> Relaxed(lo, hi, relax).0 < lo < RelaxedAsWritten(lo, hi, relax).0
    ensures relax > 0.0 && hi < 0.0 ==> RelaxedAsWritten(lo, hi, relax).1 < hi < Relaxed(lo, hi, relax).1
  {
    if relax > 0.0 && lo < 0.0 {
      assert lo * relax < 0.0;
    }
    if relax > 0.0 && hi < 0.0 {
      assert hi * relax < 0.0;
    }
  }

  /** A margin of zero sets the row's values exactly. */
  lemma UnrelaxedIsExact(lo: real, hi: real)
    ensures Relaxed(lo, hi, 0.0) == (lo, hi)
  {
  }

  function Bounded(r: Reaction, b: (real, real)): Reaction {
    r.(lower := b.0, upper := b.1)
  }

  /** One pass of the loop: `model.reactions.get_by_id(reaction_id)` raises
      KeyError for an id the model does not have; otherwise the reaction
      gets the relaxed bounds of the id's row. */
  function BoundStep(t: Result<seq<Reaction>>, fc: Fluxes.FluxConstraints, id: string, relax: real): (u: Result<seq<Reaction>>)
    requires fc.Valid() && id in fc.reactionIds
  {
    if t.Err? then t
    else
      var i := Find(t.value, id);
      if i.None? then Err(KeyError)
      else
        var b := Row(fc, id);
        Ok(t.value[i.value := Bounded(t.value[i.value], Relaxed(b.0, b.1, relax))])
  }

  /** The model's reactions after the loop has handled the first `n` ids;
      nothing else of the model changes. */
  function BoundsOf(rs: seq<Reaction>, fc: Fluxes.FluxConstraints, relax: real, n: nat): Result<seq<Reaction>>
    requires fc.Valid() && n <= |fc.reactionIds|
  {
    if n == 0 then Ok(rs)
    else BoundStep(BoundsOf(rs, fc, relax, n - 1), fc, fc.reactionIds[n - 1], relax)
  }

  /** Setting bounds keeps the reactions' number, order and ids. */
  lemma {:induction false} BoundsKeep(rs: seq<Reaction>, fc: Fluxes.FluxConstraints, relax: real, n: nat)
    requires fc.Valid() && n <= |fc.reactionIds|
    requires BoundsOf(rs, fc, relax, n).Ok?
    ensures var t := BoundsOf(rs, fc, relax, n).value;
      |t| == |rs| && forall j :: 0 <= j < |rs| ==> t[j].id == rs[j].id
  {
    if n > 0 {
      BoundsKeep(rs, fc, relax, n - 1);
    }
  }

  /** The model has a reaction with this id. */
  predicate HasId(rs: seq<Reaction>, id: string) {
    exists i :: 0 <= i < |rs| && rs[i].id == id
  }

  /** One pass goes through exactly when the model has the id. */
  lemma BoundStepFound(t: seq<Reaction>, fc: Fluxes.FluxConstraints, id: string, relax: real)
    requires fc.Valid() && id in fc.reactionIds
    ensures BoundStep(Ok(t), fc, id, relax).Ok? <==> HasId(t, id)
  {
    var f := Find(t, id);
    if f.Some? {
      assert t[f.value].id == id;
    }
  }

  lemma HasIdSameIds(a: seq<Reaction>, b: seq<Reaction>, id: string)
    requires |a| == |b| && forall j :: 0 <= j < |a| ==> a[j].id == b[j].id
    ensures HasId(a, id) <==> HasId(b, id)
  {
    if HasId(a, id) {
      var j :| 0 <= j < |a| && a[j].id == id;
      assert b[j].id == id;
    }
    if HasId(b, id) {
      var j :| 0 <= j < |b| && b[j].id == id;
      assert a[j].id == id;
    }
  }

  /** The only error the loop raises is KeyError. */
  lemma {:induction false} BoundsKeyError(rs: seq<Reaction>, fc: Fluxes.FluxConstraints, relax: real, n: nat)
    requires fc.Valid() && n <= |fc.reactionIds|
    ensures BoundsOf(rs, fc, relax, n).Err? ==> BoundsOf(rs, fc, relax, n).error == KeyError
  {
    if n > 0 {
      BoundsKeyError(rs, fc, relax, n - 1);
    }
  }

  /** The loop goes through exactly when every id it handles is a
      reaction of the model. */
  lemma {:induction false} BoundsFail(rs: seq<Reaction>, fc: Fluxes.FluxConstraints, relax: real, n: nat)
    requires fc.Valid() && n <= |fc.reactionIds|
    ensures BoundsOf(rs, fc, relax, n).Ok? <==> forall k :: 0 <= k < n ==> HasId(rs, fc.reactionIds[k])
  {
    if n > 0 {
      BoundsFail(rs, fc, relax, n - 1);
      var t := BoundsOf(rs, fc, relax, n - 1);
      var id := fc.reactionIds[n - 1];
      if t.Ok? {
        BoundsKeep(rs, fc, relax, n - 1);
        BoundStepFound(t.value, fc, id, relax);
        HasIdSameIds(t.value, rs, id);
      } else {
        var k :| 0 <= k < n - 1 && !HasId(rs, fc.reactionIds[k]);
      }
    }
  }

  /** When the model's ids are distinct, a reaction listed among the
      first `n` ids has the relaxed bounds of its row and everything else
      of its own; an unlisted reaction is untouched. */
  lemma {:induction false} BoundsSet(rs: seq<Reaction>, fc: Fluxes.FluxConstraints, relax: real, n: nat, j: nat)
    requires fc.Valid() && n <= |fc.reactionIds|
    requires UniqueIds(rs) && j < |rs|
    requires BoundsOf(rs, fc, relax, n).Ok?
    ensures var t := BoundsOf(rs, fc, relax, n).value;
      var r := rs[j];
      j < |t| &&
      t[j] == if r.id in fc.reactionIds[..n] then Bounded(r, Relaxed(Row(fc, r.id).0, Row(fc, r.id).1, relax)) else r
  {
    BoundsKeep(rs, fc, relax, n);
    if n > 0 {
      BoundsPrefixOk(rs, fc, relax, n);
      BoundsSet(rs, fc, relax, n - 1, j);
      BoundsKeep(rs, fc, relax, n - 1);
      var t := BoundsOf(rs, fc, relax, n - 1).value;
      var id := fc.reactionIds[n - 1];
      var i := Find(t, id).value;
      assert rs[i].id == id;
      var r := rs[j];
      var front := fc.reactionIds[..n - 1];
      PrefixMember(fc.reactionIds, n, r.id);
      var inFront := r.id in front;
      var x := if r.id in fc.reactionIds[..n] then Relaxed(Row(fc, r.id).0, Row(fc, r.id).1, relax) else (0.0, 0.0);
      var b := Row(fc, id);
      var u := t[i := Bounded(t[i], Relaxed(b.0, b.1, relax))];
      assert BoundsOf(rs, fc, relax, n) == Ok(u);
      assert j == i <==> r.id == id;
      if j == i {
        assert x == Relaxed(b.0, b.1, relax);
      } else {
        assert u[j] == t[j];
      }
      if inFront {
        assert r.id in fc.reactionIds[..n];
      }
      BoundedTwice(r, t[j], u[j], inFront, j == i, x);
    }
  }

  lemma PrefixMember(s: seq<string>, n: nat, k: string)
    requires 0 < n <= |s|
    ensures k in s[..n] <==> k in s[..n - 1] || k == s[n - 1]
  {
    assert s[..n] == s[..n - 1] + [s[n - 1]];
  }

  lemma BoundsPrefixOk(rs: seq<Reaction>, fc: Fluxes.FluxConstraints, relax: real, n: nat)
    requires fc.Valid() && 0 < n <= |fc.reactionIds|
    requires BoundsOf(rs, fc, relax, n).Ok?
    ensures BoundsOf(rs, fc, relax, n - 1).Ok?
  {
  }

  /** Setting the same bounds a second time changes nothing. */
  lemma BoundedTwice(r: Reaction, prev: Reaction, next: Reaction, inFront: bool, isId: bool, x: (real, real))
    requires prev == if inFront then Bounded(r, x) else r
    requires next == if isId then Bounded(prev, x) else prev
    ensures next == if inFront || isId then Bounded(r, x) else r
  {
  }

  /** The loop of both `fba` versions inside `with model:`: the failing
      id's KeyError leaves the scope, so the edits made are undone by the
      caller. */
  method SetBounds(m: Model, fc: Fluxes.FluxConstraints, relax: real) returns (ok: bool)
    requires m.Valid() && fc.Valid()
    modifies m
    ensures m.Valid() && m.scope == old(m.scope)
    ensures var b := BoundsOf(old(m.reactions), fc, relax, |fc.reactionIds|);
      ok == b.Ok? && (ok ==> m.Snapshot() == old(m.Snapshot()).(reactions := b.value))
  {
    ghost var s0 := m.Snapshot();
    var i := 0;
    ok := true;
    while i < |fc.reactionIds| && ok
      invariant 0 <= i <= |fc.reactionIds|
      invariant m.Valid() && m.scope == old(m.scope)
      invariant ok ==> BoundsOf(s0.reactions, fc, relax, i) == Ok(m.reactions) && m.Snapshot() == s0.(reactions := m.reactions)
      invariant !ok ==> BoundsOf(s0.reactions, fc, relax, i).Err?
    {
      ok := SetRelaxed(m, fc, fc.reactionIds[i], relax);
      i := i + 1;
    }
    if !ok {
      FailSticks(s0.reactions, fc, relax, i, |fc.reactionIds|);
    }
  }

  /** One pass of the loop of `fluxomics.fba`. */
  method SetRelaxed(m: Model, fc: Fluxes.FluxConstraints, reactionId: string, relax: real) returns (found: bool)
    requires m.Valid() && fc.Valid() && reactionId in fc.reactionIds
    modifies m
    ensures m.Valid() && m.scope == old(m.scope)
    ensures var u := BoundStep(Ok(old(m.reactions)), fc, reactionId, relax);
      found == u.Ok? && (found ==> m.Snapshot() == old(m.Snapshot()).(reactions := u.value))
  {
    var k := Find(m.reactions, reactionId);
    if k.None? {
      return false;
    }
    RowIsItem(fc, reactionId);
    var bounds := Fluxes.GetItem(fc, Fluxes.Id(reactionId)).value;
    var reaction := m.reactions[k.value];
    m.Do(SetReaction(k.value, reaction.(lower := bounds[0] - Margin(bounds[0], relax),
                                        upper := bounds[1] + Margin(bounds[1], relax))));
    return true;
  }

  /** Once an id is missing the loop stays failed. */
  lemma {:induction false} FailSticks(rs: seq<Reaction>, fc: Fluxes.FluxConstraints, relax: real, i: nat, n: nat)
    requires fc.Valid() && i <= n <= |fc.reactionIds|
    requires BoundsOf(rs, fc, relax, i).Err?
    ensures BoundsOf(rs, fc, relax, n).Err?
  {
    if n > i {
      FailSticks(rs, fc, relax, i, n - 1);
    }
  }

  /** The model solved: the bounds set and, when one is given, the
      objective replaced. */
  function FbaProblem(s: State, fc: Fluxes.FluxConstraints, objective: Option<Objective>, relax: real): (p: Result<State>)
    requires fc.Valid()
  {
    var b := BoundsOf(s.reactions, fc, relax, |fc.reactionIds|);
    if b.Err? then Err(b.error)
    else if objective.Some? then Ok(s.(reactions := b.value, objective := objective.value))
    else Ok(s.(reactions := b.value))
  }

  /** `with model:` around the loop, the objective and the solve. */
  method ConstrainAndSolve(m: Model, fc: Fluxes.FluxConstraints, objective: Option<Objective>, relax: real, x: Assignment)
    returns (r: Result<Solution>)
    requires m.Valid() && m.scope.None? && fc.Valid()
    modifies m
    ensures m.Valid() && m.scope.None? && m.Snapshot() == old(m.Snapshot())
    ensures var p := FbaProblem(old(m.Snapshot()), fc, objective, relax);
      r == if p.Err? then Err(p.error) else Ok(Solve(p.value, x))
  {
    m.Enter();
    var ok := SetBounds(m, fc, relax);
    if !ok {
      m.Exit();
      BoundsKeyError(old(m.reactions), fc, relax, |fc.reactionIds|);
      return Err(KeyError);
    }
    if objective.Some? {
      m.Do(SetObjective(objective.value));
    }
    var solution := Solve(m.Snapshot(), x);
    m.Exit();
    return Ok(solution);
  }

  /** `FluxBasedFluxDistribution(fluxes, objective_value, c13_flux_distribution)`. */
  datatype FluxBasedResult = FluxBasedResult(fluxes: seq<Entry<real>>, objectiveValue: real,
                                             c13Fluxes: Fluxes.FluxConstraints)

  /** `FluxBasedFluxDistribution(solution.fluxes, distribution)`, as
      written: the initialiser's third positional parameter has no
      argument, so the call raises TypeError whatever it is given. */
  function FluxBasedFromTwo(fluxes: seq<Entry<real>>, distribution: Fluxes.FluxConstraints): (r: Result<FluxBasedResult>)
    ensures r == Err(TypeError)
  {
    Err(TypeError)
  }

  /** The result evidently meant: the solution's fluxes and objective
      value next to the measured constraints. */
  function FluxBased(sol: Solution, distribution: Fluxes.FluxConstraints): (r: FluxBasedResult)
    ensures r.fluxes == sol.fluxes && r.objectiveValue == sol.objectiveValue && r.c13Fluxes == distribution
  {
    FluxBasedResult(sol.fluxes, sol.objectiveValue, distribution)
  }

  /** `fba(model, objective, distribution, relax)` of the newer generation:
      `distribution` is `None` when it is not a `FluxConstraints`, and
      iterating over it then raises TypeError. */
  function FbaOf(s: State, distribution: Option<Fluxes.FluxConstraints>, objective: Option<Objective>,
                 relax: real, x: Assignment): (r: Result<FluxBasedResult>)
    requires distribution.Some? ==> distribution.value.Valid()
  {
    if distribution.None? then Err(TypeError)
    else
      var p := FbaProblem(s, distribution.value, objective, relax);
      if p.Err? then Err(p.error) else Ok(FluxBased(Solve(p.value, x), distribution.value))
  }

  /** The older generation first rejects a distribution that is not a
      `FluxConstraints` with ValueError. */
  function LegacyFbaOf(s: State, distribution: Option<Fluxes.FluxConstraints>, objective: Option<Objective>,
                       relax: real, x: Assignment): (r: Result<FluxBasedResult>)
    requires distribution.Some? ==> distribution.value.Valid()
    ensures distribution.None? ==> r == Err(ValueError)
    ensures distribution.Some? ==> r == FbaOf(s, distribution, objective, relax, x)
  {
    if distribution.None? then Err(ValueError) else FbaOf(s, distribution, objective, relax, x)
  }

  /** What `fba` promises: it goes through exactly when a distribution is
      given and every id in it is a reaction of the model; then each flux it reports is the flux
      of the model's reaction at that position, and the objective value
      is that of the given objective, or of the model's own when none is
      given. */
  lemma FbaOfMeaning(s: State, distribution: Option<Fluxes.FluxConstraints>, objective: Option<Objective>,
                     relax: real, x: Assignment)
    requires distribution.Some? ==> distribution.value.Valid()
    ensures FbaOf(s, distribution, objective, relax, x).Ok? <==>
      (distribution.Some? && forall k :: 0 <= k < |distribution.value.reactionIds| ==>
                                         HasId(s.reactions, distribution.value.reactionIds[k]))
    ensures FbaOf(s, distribution, objective, relax, x).Ok? ==>
      var r := FbaOf(s, distribution, objective, relax, x).value;
      r.c13Fluxes == distribution.value && |r.fluxes| == |s.reactions| &&
      (forall j :: 0 <= j < |s.reactions| ==> r.fluxes[j] == Entry(s.reactions[j].id, Flux(s.reactions[j].id, x))) &&
      r.objectiveValue == Value((if objective.Some? then objective.value else s.objective).terms, x)
  {
    if distribution.Some? {
      var fc := distribution.value;
      BoundsFail(s.reactions, fc, relax, |fc.reactionIds|);
      if BoundsOf(s.reactions, fc, relax, |fc.reactionIds|).Ok? {
        BoundsKeep(s.reactions, fc, relax, |fc.reactionIds|);
      }
    }
  }

  /** `fluxomics.fba` of the newer generation, with the relaxation and
      the result construction corrected. */
  method Fba(m: Model, distribution: Option<Fluxes.FluxConstraints>, objective: Option<Objective>, relax: real, x: Assignment)
    returns (r: Result<FluxBasedResult>)
    requires m.Valid() && m.scope.None? && (distribution.Some? ==> distribution.value.Valid())
    modifies m
    ensures m.Valid() && m.scope.None? && m.Snapshot() == old(m.Snapshot())
    ensures r == FbaOf(old(m.Snapshot()), distribution, objective, relax, x)
  {
    if distribution.None? {
      return Err(TypeError);
    }
    var solution := ConstrainAndSolve(m, distribution.value, objective, relax, x);
    if solution.Err? {
      return Err(solution.error);
    }
    return Ok(FluxBasedResult(solution.value.fluxes, solution.value.objectiveValue, distribution.value));
  }

  /** `fluxomics.fba` of the older generation: the type check first. */
  method LegacyFba(m: Model, distribution: Option<Fluxes.FluxConstraints>, objective: Option<Objective>, relax: real, x: Assignment)
    returns (r: Result<FluxBasedResult>)
    requires m.Valid() && m.scope.None? && (distribution.Some? ==> distribution.value.Valid())
    modifies m
    ensures m.Valid() && m.scope.None? && m.Snapshot() == old(m.Snapshot())
    ensures r == LegacyFbaOf(old(m.Snapshot()), distribution, objective, relax, x)
  {
    if distribution.None? {
      return Err(ValueError);
    }
    r := Fba(m, distribution, objective, relax, x);
  }

  // ---------------------------------------------------------------------
  // c13.fba

  /** The loop of `c13.fba`: for each id the upper bound is set before
      the lower one, each assignment registered with an undo entry
      holding the bound it replaces. */
  method SetExactBounds(m: Model, fc: Fluxes.FluxConstraints) returns (ok: bool)
    requires m.Valid() && fc.Valid()
    modifies m
    ensures m.Valid() && m.scope == old(m.scope)
    ensures var b := BoundsOf(old(m.reactions), fc, 0.0, |fc.reactionIds|);
      ok == b.Ok? && (ok ==> m.Snapshot() == old(m.Snapshot()).(reactions := b.value))
  {
    ghost var s0 := m.Snapshot();
    var i := 0;
    ok := true;
    while i < |fc.reactionIds| && ok
      invariant 0 <= i <= |fc.reactionIds|
      invariant m.Valid() && m.scope == old(m.scope)
      invariant ok ==> BoundsOf(s0.reactions, fc, 0.0, i) == Ok(m.reactions) && m.Snapshot() == s0.(reactions := m.reactions)
      invariant !ok ==> BoundsOf(s0.reactions, fc, 0.0, i).Err?
    {
      ok := SetExact(m, fc, fc.reactionIds[i]);
      i := i + 1;
    }
    if !ok {
      FailSticks(s0.reactions, fc, 0.0, i, |fc.reactionIds|);
    }
  }

  /** One pass of the loop of `c13.fba`: the upper bound, then the lower. */
  method SetExact(m: Model, fc: Fluxes.FluxConstraints, reactionId: string) returns (found: bool)
    requires m.Valid() && fc.Valid() && reactionId in fc.reactionIds
    modifies m
    ensures m.Valid() && m.scope == old(m.scope)
    ensures var u := BoundStep(Ok(old(m.reactions)), fc, reactionId, 0.0);
      found == u.Ok? && (found ==> m.Snapshot() == old(m.Snapshot()).(reactions := u.value))
  {
    var k := Find(m.reactions, reactionId);
    if k.None? {
      return false;
    }
    RowIsItem(fc, reactionId);
    var limits := Fluxes.GetItem(fc, Fluxes.Id(reactionId)).value;
    m.Do(SetReaction(k.value, m.reactions[k.value].(upper := limits[1])));
    m.Do(SetReaction(k.value, m.reactions[k.value].(lower := limits[0])));
    UnrelaxedIsExact(limits[0], limits[1]);
    return true;
  }

  /** `c13.fba(model, objective, distribution)`: the bounds set exactly
      inside a TimeMachine, whose exit undoes them after pFBA has
      returned and on a KeyError alike. `x` is pFBA's answer. */
  function C13FbaOf(s: State, distribution: Option<Fluxes.FluxConstraints>, objective: Option<Objective>,
                    x: Assignment): (r: Result<Solution>)
    requires distribution.Some? ==> distribution.value.Valid()
  {
    if distribution.None? then Err(TypeError)
    else
      var p := FbaProblem(s, distribution.value, objective, 0.0);
      if p.Err? then Err(p.error) else Ok(Solve(p.value, x))
  }

  /** Inside the TimeMachine each listed reaction's bounds are exactly its
      row (when the model's ids are distinct) and the other reactions are
      untouched. */
  lemma C13Bounds(rs: seq<Reaction>, fc: Fluxes.FluxConstraints, j: nat)
    requires fc.Valid() && UniqueIds(rs) && j < |rs|
    requires BoundsOf(rs, fc, 0.0, |fc.reactionIds|).Ok?
    ensures var t := BoundsOf(rs, fc, 0.0, |fc.reactionIds|).value;
      var r := rs[j];
      j < |t| &&
      (r.id in fc.reactionIds ==> t[j] == r.(lower := Row(fc, r.id).0, upper := Row(fc, r.id).1)) &&
      (r.id !in fc.reactionIds ==> t[j] == r)
  {
    BoundsSet(rs, fc, 0.0, |fc.reactionIds|, j);
    assert fc.reactionIds[..|fc.reactionIds|] == fc.reactionIds;
  }

  method C13Fba(m: Model, distribution: Option<Fluxes.FluxConstraints>, objective: Option<Objective>, x: Assignment)
    returns (r: Result<Solution>)
    requires m.Valid() && m.scope.None? && (distribution.Some? ==> distribution.value.Valid())
    modifies m
    ensures m.Valid() && m.scope.None? && m.Snapshot() == old(m.Snapshot())
    ensures r == C13FbaOf(old(m.Snapshot()), distribution, objective, x)
  {
    if distribution.None? {
      return Err(TypeError);
    }
    m.Enter();
    var ok := SetExactBounds(m, distribution.value);
    if !ok {
      m.Exit();
      BoundsKeyError(old(m.reactions), distribution.value, 0.0, |distribution.value.reactionIds|);
      return Err(KeyError);
    }
    var problem := if objective.Some? then m.Snapshot().(objective := objective.value) else m.Snapshot();
    r := Ok(Solve(problem, x));
    m.Exit();
  }
}
