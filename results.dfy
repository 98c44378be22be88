/** The result objects of the older flux-analysis functions and their
    scores: GIMME's inconsistency scores, its distance to the reference FBA
    fluxes and the model trimming; iMAT's expression classes; and the
    comparison of two flux distributions. Flux distributions and reaction
    expression are insertion-ordered dictionaries with distinct keys. */
module Results {
  import opened Wrappers
  import opened Metabolic

  /** `d[k]` on an insertion-ordered dictionary. */
  function Lookup<V>(d: seq<Entry<V>>, k: string): (r: Option<V>)
    ensures r.Some? <==> HasKey(d, k)
  {
    if d == [] then None
    else if d[0].key == k then Some(d[0].value)
    else
      var r := Lookup(d[1..], k);
      assert forall i :: 0 <= i < |d| - 1 ==> d[1..][i] == d[i + 1];
      assert HasKey(d, k) ==> HasKey(d[1..], k) by {
        if HasKey(d, k) {
          var i :| 0 <= i < |d| && d[i].key == k;
          assert d[1..][i - 1].key == k;
        }
      }
      r
  }

  predicate UniqueKeys<V>(d: seq<Entry<V>>) {
    forall i, j :: 0 <= i < |d| && 0 <= j < |d| && d[i].key == d[j].key ==> i == j
  }

  /** With distinct keys every entry is what its key looks up. */
  lemma {:induction false} LookupEntry<V>(d: seq<Entry<V>>, i: nat)
    requires UniqueKeys(d) && i < |d|
    ensures Lookup(d, d[i].key) == Some(d[i].value)
  {
    if i > 0 {
      var t := d[1..];
      assert t[i - 1] == d[i];
      assert UniqueKeys(t) by {
        forall a, b | 0 <= a < |t| && 0 <= b < |t| && t[a].key == t[b].key ensures a == b {
          assert d[a + 1].key == d[b + 1].key;
        }
      }
      assert d[0].key != d[i].key;
      LookupEntry(t, i - 1);
    }
  }

  /** `sum(abs(a[r] - b[r]) for r in a.keys())`: a key of `a` missing from
      `b` raises KeyError. */
  function AbsDiffSum(a: seq<Entry<real>>, b: seq<Entry<real>>): (r: Result<real>)
    ensures r.Err? <==> exists i :: 0 <= i < |a| && !HasKey(b, a[i].key)
    ensures r.Err? ==> r.error == KeyError
    ensures r.Ok? ==> r.value >= 0.0
    ensures r.Ok? ==> (r.value == 0.0 <==> forall i :: 0 <= i < |a| ==> Lookup(b, a[i].key) == Some(a[i].value))
  {
    if a == [] then Ok(0.0)
    else
      var n := |a| - 1;
      var front := AbsDiffSum(a[..n], b);
      assert forall i :: 0 <= i < n ==> a[..n][i] == a[i];
      var other := Lookup(b, a[n].key);
      if front.Err? then front
      else if other.None? then Err(KeyError)
      else Ok(front.value + Abs(a[n].value - other.value))
  }

  // ---------------------------------------------------------------------
  // GimmeResult

  datatype GimmeResult = GimmeResult(
    fluxes: seq<Entry<real>>,
    objectiveValue: real,
    /** The reference distribution's fluxes. */
    fbaFluxes: seq<Entry<real>>,
    /** The reaction expression GIMME was given. */
    expression: seq<Entry<real>>,
    cutoff: real)

  function Max0(v: real): real { if v >= 0.0 then v else 0.0 }

  /** `reaction_inconsistency_score(r)`: the flux times how far the
      expression lies below the cutoff, 0 for a reaction without
      expression. */
  function InconsistencyOf(g: GimmeResult, r: string): (s: Result<real>)
    ensures s.Err? <==> HasKey(g.expression, r) && !HasKey(g.fluxes, r)
    ensures s.Err? ==> s.error == KeyError
    ensures s.Ok? ==> s.value >= 0.0
    ensures s.Ok? ==> (s.value > 0.0 <==>
      HasKey(g.expression, r) && g.cutoff > Lookup(g.expression, r).value && Lookup(g.fluxes, r).value != 0.0)
  {
    var e := Lookup(g.expression, r);
    if e.None? then Ok(0.0)
    else
      var f := Lookup(g.fluxes, r);
      if f.None? then Err(KeyError)
      else
        var s := Abs(f.value) * Max0(g.cutoff - e.value);
        assert s > 0.0 <==> Abs(f.value) > 0.0 && g.cutoff - e.value > 0.0 by {
          if Abs(f.value) > 0.0 && g.cutoff - e.value > 0.0 {
            assert s == Abs(f.value) * (g.cutoff - e.value);
          }
        }
        Ok(s)
  }

  /** The sum of a sequence of scores, each of which may raise; the
      first one that raises ends the sum. */
  function SumScores(ss: seq<Result<real>>): (r: Result<real>)
    requires forall i :: 0 <= i < |ss| && ss[i].Ok? ==> ss[i].value >= 0.0
    ensures r.Err? <==> exists i :: 0 <= i < |ss| && ss[i].Err?
    ensures r.Ok? ==> r.value >= 0.0
    ensures r.Ok? ==> (r.value == 0.0 <==> forall i :: 0 <= i < |ss| ==> ss[i] == Ok(0.0))
  {
    if ss == [] then Ok(0.0)
    else
      var n := |ss| - 1;
      var front := SumScores(ss[..n]);
      assert forall i :: 0 <= i < n ==> ss[..n][i] == ss[i];
      if front.Err? then front
      else if ss[n].Err? then Err(ss[n].error)
      else Ok(front.value + ss[n].value)
  }

  /** `inconsistency_score`: the scores summed over the expressed
      reactions. */
  function InconsistencyScore(g: GimmeResult): (r: Result<real>)
    ensures r.Err? <==> exists i :: 0 <= i < |g.expression| && InconsistencyOf(g, g.expression[i].key).Err?
    ensures r.Ok? ==> r.value >= 0.0
    ensures r.Ok? ==> (r.value == 0.0 <==> forall i :: 0 <= i < |g.expression| ==> InconsistencyOf(g, g.expression[i].key) == Ok(0.0))
  {
    var ss := seq(|g.expression|, i requires 0 <= i < |g.expression| => InconsistencyOf(g, g.expression[i].key));
    assert forall i :: 0 <= i < |ss| ==> ss[i] == InconsistencyOf(g, g.expression[i].key);
    SumScores(ss)
  }

  /** The inconsistency score is zero exactly when no reaction expressed
      below the cutoff carries flux. */
  lemma InconsistencyZero(g: GimmeResult)
    requires UniqueKeys(g.expression) && InconsistencyScore(g).Ok?
    ensures InconsistencyScore(g).value >= 0.0
    ensures InconsistencyScore(g).value == 0.0 <==>
      forall i :: 0 <= i < |g.expression| && g.cutoff > g.expression[i].value ==> Lookup(g.fluxes, g.expression[i].key) == Some(0.0)
  {
    forall i | 0 <= i < |g.expression|
      ensures InconsistencyOf(g, g.expression[i].key) == Ok(0.0) <==>
        (g.cutoff > g.expression[i].value ==> Lookup(g.fluxes, g.expression[i].key) == Some(0.0))
    {
      assert InconsistencyScore(g).Ok?;
      InconsistencyZeroAt(g, i);
    }
  }

  /** One expressed reaction scores zero exactly when it is at or above
      the cutoff or carries no flux. */
  lemma InconsistencyZeroAt(g: GimmeResult, i: nat)
    requires UniqueKeys(g.expression) && i < |g.expression| && InconsistencyOf(g, g.expression[i].key).Ok?
    ensures InconsistencyOf(g, g.expression[i].key) == Ok(0.0) <==>
      (g.cutoff > g.expression[i].value ==> Lookup(g.fluxes, g.expression[i].key) == Some(0.0))
  {
    LookupEntry(g.expression, i);
    var k := g.expression[i].key;
    assert HasKey(g.expression, k);
    if g.cutoff > g.expression[i].value && Lookup(g.fluxes, k) != Some(0.0) {
      assert InconsistencyOf(g, k).Err? || InconsistencyOf(g, k).value > 0.0;
    }
  }

  /** `distance`: the summed absolute difference to the reference fluxes. */
  function Distance(g: GimmeResult): Result<real> {
    AbsDiffSum(g.fluxes, g.fbaFluxes)
  }

  /** `reaction.knock_out()`: both bounds set to zero. */
  function KnockOut(r: Reaction): (k: Reaction)
    ensures k.id == r.id && k.lower == 0.0 && k.upper == 0.0
  {
    r.(lower := 0.0, upper := 0.0)
  }

  /** The three tests `trim_model` makes for the `j`-th flux: no flux, an
      expression (the cutoff plus one when absent) below the cutoff, and a
      score that is not positive. */
  predicate Trims(g: GimmeResult, j: nat)
    requires j < |g.fluxes|
  {
    var id := g.fluxes[j].key;
    var e := Lookup(g.expression, id);
    var expression := if e.Some? then e.value else g.cutoff + 1.0;
    var s := InconsistencyOf(g, id);
    Abs(g.fluxes[j].value) == 0.0 && expression < g.cutoff && s.Ok? && s.value <= 0.0
  }

  /** The score test adds nothing: a reaction without flux never scores
      above zero, so `trim_model` knocks out exactly the reactions without
      flux whose expression lies below the cutoff. */
  lemma TrimsExactly(g: GimmeResult, j: nat)
    requires UniqueKeys(g.fluxes) && j < |g.fluxes|
    ensures Trims(g, j) <==>
      g.fluxes[j].value == 0.0 && HasKey(g.expression, g.fluxes[j].key) && Lookup(g.expression, g.fluxes[j].key).value < g.cutoff
  {
    LookupEntry(g.fluxes, j);
    assert HasKey(g.fluxes, g.fluxes[j].key);
  }

  /** What `trim_model` does to a model state over the first `n` fluxes:
      `failed` when a flux names a reaction the model lacks, which raises
      KeyError after the earlier knock-outs took effect. */
  datatype Trimmed = Trimmed(state: State, failed: bool)

  function TrimSteps(s: State, g: GimmeResult, n: nat): (t: Trimmed)
    requires n <= |g.fluxes|
    ensures |t.state.reactions| == |s.reactions|
    ensures forall i :: 0 <= i < |s.reactions| ==> t.state.reactions[i].id == s.reactions[i].id
  {
    if n == 0 then Trimmed(s, false) else TrimStep(TrimSteps(s, g, n - 1), g, n - 1)
  }

  /** The `j`-th flux's step. */
  function TrimStep(t: Trimmed, g: GimmeResult, j: nat): (u: Trimmed)
    requires j < |g.fluxes|
    ensures |u.state.reactions| == |t.state.reactions|
    ensures forall i :: 0 <= i < |t.state.reactions| ==> u.state.reactions[i].id == t.state.reactions[i].id
  {
    if t.failed || !Trims(g, j) then t
    else
      var i := Find(t.state.reactions, g.fluxes[j].key);
      if i.None? then Trimmed(t.state, true)
      else Trimmed(t.state.(reactions := t.state.reactions[i.value := KnockOut(t.state.reactions[i.value])]), false)
  }

  lemma FindUnique(rs: seq<Reaction>, k: nat)
    requires UniqueIds(rs) && k < |rs|
    ensures Find(rs, rs[k].id) == Some(k)
  {
  }

  /** Some flux among the first `n` with this id passes the tests. */
  predicate Knocked(g: GimmeResult, n: nat, id: string)
    requires n <= |g.fluxes|
  {
    exists j :: 0 <= j < n && g.fluxes[j].key == id && Trims(g, j)
  }

  lemma KnockedStep(g: GimmeResult, n: nat, id: string)
    requires 0 < n <= |g.fluxes|
    ensures Knocked(g, n, id) <==> Knocked(g, n - 1, id) || (g.fluxes[n - 1].key == id && Trims(g, n - 1))
  {
  }

  /** Every flux names a reaction of the model. */
  predicate Named(s: State, g: GimmeResult) {
    forall j :: 0 <= j < |g.fluxes| ==> Find(s.reactions, g.fluxes[j].key).Some?
  }

  /** The reactions after some steps keep their ids, hence stay distinct. */
  lemma TrimKeepsIds(s: State, g: GimmeResult, n: nat)
    requires n <= |g.fluxes| && UniqueIds(s.reactions)
    ensures UniqueIds(TrimSteps(s, g, n).state.reactions)
  {
    var rs := TrimSteps(s, g, n).state.reactions;
    forall a, b | 0 <= a < |rs| && 0 <= b < |rs| && rs[a].id == rs[b].id ensures a == b {
      assert s.reactions[a].id == s.reactions[b].id;
    }
  }

  /** One step that knocks out reaction `k` leaves every other reaction
      as it was. */
  lemma TrimStepAt(s: State, g: GimmeResult, n: nat, k: nat)
    requires 0 < n <= |g.fluxes| && UniqueIds(s.reactions) && k < |s.reactions|
    requires !TrimSteps(s, g, n - 1).failed && Trims(g, n - 1) && s.reactions[k].id == g.fluxes[n - 1].key
    ensures var rs := TrimSteps(s, g, n - 1).state.reactions;
      TrimSteps(s, g, n) == Trimmed(TrimSteps(s, g, n - 1).state.(reactions := rs[k := KnockOut(rs[k])]), false)
  {
    TrimKeepsIds(s, g, n - 1);
    FindUnique(TrimSteps(s, g, n - 1).state.reactions, k);
  }

  /** With distinct reaction ids and every flux naming a reaction, each
      reaction ends knocked out exactly when some flux of its id passes the
      tests, and is untouched otherwise. */
  lemma {:induction false} TrimStepsMeaning(s: State, g: GimmeResult, n: nat, i: nat)
    requires n <= |g.fluxes| && UniqueIds(s.reactions) && Named(s, g) && i < |s.reactions|
    ensures !TrimSteps(s, g, n).failed
    ensures TrimSteps(s, g, n).state.reactions[i] == if Knocked(g, n, s.reactions[i].id) then KnockOut(s.reactions[i]) else s.reactions[i]
  {
    if n > 0 {
      TrimStepsMeaning(s, g, n - 1, i);
      KnockedStep(g, n, s.reactions[i].id);
      if Trims(g, n - 1) {
        var k := Find(s.reactions, g.fluxes[n - 1].key).value;
        TrimStepsMeaning(s, g, n - 1, k);
        TrimStepAt(s, g, n, k);
      }
    }
  }

  // ---------------------------------------------------------------------
  // IMATResult

  datatype ImatResult = ImatResult(fluxes: seq<Entry<real>>, objectiveValue: real, expression: seq<Entry<real>>,
                                   lowerCutoff: real, higherCutoff: real, epsilon: real)

  /** `_highly_expressed(r)`: `None` stands for NaN, a reaction without
      expression. */
  function Highly(m: ImatResult, r: string): (h: Option<bool>)
    ensures h.None? <==> !HasKey(m.expression, r)
    ensures h.Some? ==> (h.value <==> Lookup(m.expression, r).value >= m.higherCutoff)
  {
    var e := Lookup(m.expression, r);
    if e.None? then None else Some(e.value >= m.higherCutoff)
  }

  /** `_lowly_expressed(r)`. */
  function Lowly(m: ImatResult, r: string): (l: Option<bool>)
    ensures l.None? <==> !HasKey(m.expression, r)
    ensures l.Some? ==> (l.value <==> Lookup(m.expression, r).value < m.lowerCutoff)
  {
    var e := Lookup(m.expression, r);
    if e.None? then None else Some(e.value < m.lowerCutoff)
  }

  /** `highly_express`, one class per reaction of the fluxes. */
  function HighlyExpress(m: ImatResult): (d: map<string, Option<bool>>)
    ensures forall r :: r in d <==> HasKey(m.fluxes, r)
    ensures forall r :: r in d ==> d[r] == Highly(m, r)
  {
    map r | r in Keys(m.fluxes) :: Highly(m, r)
  }

  function LowlyExpress(m: ImatResult): (d: map<string, Option<bool>>)
    ensures forall r :: r in d <==> HasKey(m.fluxes, r)
    ensures forall r :: r in d ==> d[r] == Lowly(m, r)
  {
    map r | r in Keys(m.fluxes) :: Lowly(m, r)
  }

  /** With ordered cutoffs no reaction is in both classes; a reaction with
      expression is in at most one of them and, between the cutoffs, in
      neither. */
  lemma ClassesDisjoint(m: ImatResult, r: string)
    requires m.lowerCutoff <= m.higherCutoff && HasKey(m.expression, r)
    ensures !(Highly(m, r).value && Lowly(m, r).value)
    ensures var e := Lookup(m.expression, r).value;
      m.lowerCutoff <= e < m.higherCutoff <==> !Highly(m, r).value && !Lowly(m, r).value
  {
  }

  // ---------------------------------------------------------------------
  // FluxDistributionDiff

  datatype FluxDistributionDiff = FluxDistributionDiff(a: seq<Entry<real>>, b: seq<Entry<real>>)

  /** The constructor's assertion: both distributions have the same
      reactions. */
  function Diff(a: seq<Entry<real>>, b: seq<Entry<real>>): (r: Result<FluxDistributionDiff>)
    ensures r.Ok? <==> forall k :: HasKey(a, k) <==> HasKey(b, k)
    ensures r.Ok? ==> r.value == FluxDistributionDiff(a, b)
    ensures r.Err? ==> r.error == AssertionError
  {
    if (forall i :: 0 <= i < |b| ==> HasKey(a, b[i].key)) && (forall i :: 0 <= i < |a| ==> HasKey(b, a[i].key))
    then Ok(FluxDistributionDiff(a, b))
    else Err(AssertionError)
  }

  /** `manhattan_distance`: never raises on a constructed comparison; zero
      exactly when both distributions agree on every reaction. */
  function ManhattanDistance(d: FluxDistributionDiff): (r: real)
    requires forall k :: HasKey(d.a, k) <==> HasKey(d.b, k)
    ensures r >= 0.0
    ensures r == 0.0 <==> forall i :: 0 <= i < |d.a| ==> Lookup(d.b, d.a[i].key) == Some(d.a[i].value)
  {
    var s := AbsDiffSum(d.a, d.b);
    assert s.Ok? by {
      if s.Err? {
        var i :| 0 <= i < |d.a| && !HasKey(d.b, d.a[i].key);
        assert HasKey(d.a, d.a[i].key);
      }
    }
    s.value
  }

  /** `_activity(r, threshold)`: `None` when the flux is below the
      threshold in both, otherwise the difference of the two "above the
      threshold" indicators. */
  function Activity(a: real, b: real, threshold: real): (v: Option<real>)
    ensures v.None? <==> Abs(a) < threshold && Abs(b) < threshold
    ensures v.Some? ==> v.value == -1.0 || v.value == 0.0 || v.value == 1.0
    ensures v.Some? ==> (v.value == 1.0 <==> Abs(a) > threshold && Abs(b) <= threshold)
    ensures v.Some? ==> (v.value == -1.0 <==> Abs(a) <= threshold && Abs(b) > threshold)
  {
    if Abs(a) < threshold && Abs(b) < threshold then None
    else
      var x := if Abs(a) > threshold then 1.0 else 0.0;
      var y := if Abs(b) > threshold then 1.0 else 0.0;
      Some(x - y)
  }

  /** At exactly the threshold a flux counts as neither below nor above
      it: a flux at the threshold against no flux is "active" yet scores
      0. */
  lemma ActivityAtThreshold(threshold: real)
    requires threshold > 0.0
    ensures Activity(threshold, 0.0, threshold) == Some(0.0)
  {
  }

  /** `activity_profile` with the default threshold 1e-6. */
  function ActivityProfile(d: FluxDistributionDiff): (p: map<string, Option<real>>)
    ensures forall k :: k in p <==> HasKey(d.a, k)
    ensures forall k :: k in p && HasKey(d.b, k) ==>
      p[k] == Activity(Lookup(d.a, k).value, Lookup(d.b, k).value, 0.000001)
  {
    map k | k in Keys(d.a) :: var y := Lookup(d.b, k); Activity(Lookup(d.a, k).value, if y.Some? then y.value else 0.0, 0.000001)
  }

  /** `_fold_change`: `(a - b) / a`, `None` when `a` is zero. It is the
      relative change that takes `a` to `b`. */
  function FoldChange(a: real, b: real): (f: Option<real>)
    ensures f.None? <==> a == 0.0
    ensures f.Some? ==> b == a * (1.0 - f.value)
  {
    if a == 0.0 then None else Some((a - b) / a)
  }

  // ---------------------------------------------------------------------
  // trim_model

  /** The knock-out of one reaction by id: `false` when the model has no
      reaction of that id. */
  method KnockOutById(m: Model, rid: string) returns (found: bool)
    requires m.Valid()
    modifies m
    ensures m.Valid() && m.scope == old(m.scope)
    ensures var i := Find(old(m.reactions), rid);
      found == i.Some? &&
      m.Snapshot() == if i.Some? then old(m.Snapshot()).(reactions := old(m.reactions)[i.value := KnockOut(old(m.reactions)[i.value])])
                      else old(m.Snapshot())
  {
    var i := Find(m.reactions, rid);
    if i.None? {
      return false;
    }
    m.Do(SetReaction(i.value, KnockOut(m.reactions[i.value])));
    return true;
  }

  /** The loop body for the `j`-th flux. */
  method TrimAt(g: GimmeResult, m: Model, j: nat) returns (ok: bool)
    requires m.Valid() && j < |g.fluxes|
    modifies m
    ensures m.Valid() && m.scope == old(m.scope)
    ensures TrimStep(Trimmed(old(m.Snapshot()), false), g, j) == Trimmed(m.Snapshot(), !ok)
  {
    ok := true;
    if Trims(g, j) {
      ok := KnockOutById(m, g.fluxes[j].key);
    }
  }

  /** `trim_model(model, tm)`: each flux that passes the tests knocks its
      reaction out; with an open scope (`tm`) every knock-out registers its
      undo. A flux naming a reaction the model lacks raises KeyError. */
  method TrimModel(g: GimmeResult, m: Model) returns (r: Result<()>)
    requires m.Valid()
    modifies m
    ensures m.Valid() && m.scope == old(m.scope)
    ensures m.Snapshot() == TrimSteps(old(m.Snapshot()), g, |g.fluxes|).state
    ensures r.Err? <==> TrimSteps(old(m.Snapshot()), g, |g.fluxes|).failed
    ensures r.Err? ==> r.error == KeyError
  {
    ghost var s0 := m.Snapshot();
    var j, failed := 0, false;
    while j < |g.fluxes| && !failed
      invariant 0 <= j <= |g.fluxes|
      invariant m.Valid() && m.scope == old(m.scope)
      invariant TrimSteps(s0, g, j) == Trimmed(m.Snapshot(), failed)
    {
      var ok := TrimAt(g, m, j);
      failed, j := !ok, j + 1;
    }
    StopsThere(s0, g, j);
    if failed {
      return Err(KeyError);
    }
    return Ok(());
  }

  /** Once trimming fails it stays failed with the same state. */
  lemma {:induction false} StopsThere(s: State, g: GimmeResult, j: nat)
    requires j <= |g.fluxes| && (TrimSteps(s, g, j).failed || j == |g.fluxes|)
    ensures TrimSteps(s, g, |g.fluxes|) == TrimSteps(s, g, j)
    decreases |g.fluxes| - j
  {
    if j < |g.fluxes| {
      StopsThere(s, g, j + 1);
    }
  }
}
