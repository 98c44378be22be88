/** The part of a cobra model (and of its optlang problem) that the
    omics algorithms read and edit: reactions with bounds, gene rule and
    stoichiometry, metabolites, the variables and constraints added to the
    problem, and the objective. A `with model:` block is a scope: every edit
    made while it is open pushes an undo entry, and leaving the scope
    replays those entries from the newest to the oldest, as cobra's history
    manager does. */
module Metabolic {
  import opened Wrappers
  import Gpr

  datatype Reaction = Reaction(
    id: string,
    lower: real,
    upper: real,
    /** `gene_reaction_rule`, the rule as text. */
    gpr: string,
    /** The parsed rule (`parse_gpr(gpr)`), `None` for an empty rule. */
    rule: Option<Gpr.Rule>,
    /** Metabolite id to stoichiometric coefficient. */
    stoichiometry: map<string, real>,
    /** Membership of `model.exchanges`. */
    exchange: bool)
  {
    /** `reaction.genes`. */
    function Genes(): set<string> {
      if rule.Some? then Gpr.Genes(rule.value) else {}
    }
  }

  /** A variable of the optimisation problem: the forward or reverse half
      of a reaction's flux, or a variable an algorithm added by name. */
  datatype Var = Forward(rxn: string) | Reverse(rxn: string) | Aux(name: string)

  datatype Variable = Variable(name: string, lb: Option<real>, ub: Option<real>, binary: bool)

  datatype Term = Term(v: Var, c: real)

  /** `lb <= offset + sum of the terms <= ub`; a missing bound is absent. */
  datatype Constraint = Constraint(name: string, terms: seq<Term>, offset: real, lb: Option<real>, ub: Option<real>)

  datatype Direction = Maximize | Minimize

  datatype Objective = Objective(terms: seq<Term>, direction: Direction)

  /** A value for every variable, as a solver returns it. */
  type Assignment = Var -> real

  function Value(terms: seq<Term>, x: Assignment): real {
    if terms == [] then 0.0
    else Value(terms[..|terms| - 1], x) + terms[|terms| - 1].c * x(terms[|terms| - 1].v)
  }

  lemma ValueAppend(a: seq<Term>, b: seq<Term>, x: Assignment)
    ensures Value(a + b, x) == Value(a, x) + Value(b, x)
    decreases |b|
  {
    if b == [] {
      assert a + b == a;
    } else {
      var n := |b| - 1;
      assert (a + b)[..|a + b| - 1] == a + b[..n];
      ValueAppend(a, b[..n], x);
    }
  }

  lemma ValuePair(a: Term, b: Term, x: Assignment)
    ensures Value([a, b], x) == a.c * x(a.v) + b.c * x(b.v)
  {
    assert [a, b][..1] == [a] && [a][..0] == [];
    assert Value([a], x) == a.c * x(a.v);
  }

  predicate Satisfies(k: Constraint, x: Assignment) {
    var v := k.offset + Value(k.terms, x);
    (k.lb.Some? ==> k.lb.value <= v) && (k.ub.Some? ==> v <= k.ub.value)
  }

  /** `reaction.flux_expression`: forward minus reverse. */
  function FluxTerms(id: string): seq<Term> {
    [Term(Forward(id), 1.0), Term(Reverse(id), -1.0)]
  }

  /** Python's `abs` on a float. */
  function Abs(v: real): real { if v < 0.0 then -v else v }

  function Flux(id: string, x: Assignment): real {
    x(Forward(id)) - x(Reverse(id))
  }

  lemma FluxValue(id: string, x: Assignment)
    ensures Value(FluxTerms(id), x) == Flux(id, x)
  {
    var t := FluxTerms(id);
    assert t[..1] == [Term(Forward(id), 1.0)];
    assert t[..1][..0] == [];
    assert Value(t[..1], x) == 1.0 * x(Forward(id));
    assert Value(t, x) == Value(t[..1], x) + -1.0 * x(Reverse(id));
  }

  /** What `model.optimize()` reports for an assignment the solver chose:
      the objective value and each reaction's flux, in model order. */
  datatype Solution = Solution(objectiveValue: real, fluxes: seq<Entry<real>>)

  function Solve(s: State, x: Assignment): (sol: Solution)
    ensures sol.objectiveValue == Value(s.objective.terms, x)
    ensures |sol.fluxes| == |s.reactions|
    ensures forall i :: 0 <= i < |s.reactions| ==> sol.fluxes[i] == Entry(s.reactions[i].id, Flux(s.reactions[i].id, x))
  {
    Solution(Value(s.objective.terms, x),
             seq(|s.reactions|, i requires 0 <= i < |s.reactions| => Entry(s.reactions[i].id, Flux(s.reactions[i].id, x))))
  }

  predicate UniqueIds(rs: seq<Reaction>) {
    forall i, j :: 0 <= i < |rs| && 0 <= j < |rs| && rs[i].id == rs[j].id ==> i == j
  }

  /** The reaction with a given id. */
  function Find(rs: seq<Reaction>, id: string): (r: Option<nat>)
    ensures r.Some? ==> r.value < |rs| && rs[r.value].id == id
    ensures r.None? ==> forall i :: 0 <= i < |rs| ==> rs[i].id != id
  {
    if rs == [] then None
    else if rs[0].id == id then Some(0)
    else
      var r := Find(rs[1..], id);
      if r.Some? then Some(r.value + 1) else None
  }

  datatype State = State(
    reactions: seq<Reaction>,
    metabolites: seq<string>,
    variables: seq<Variable>,
    constraints: seq<Constraint>,
    objective: Objective)

  /** The edits the algorithms make inside a scope. */
  datatype Edit =
    | SetReaction(i: nat, r: Reaction)
    | AddVariable(v: Variable)
    | AddConstraint(k: Constraint)
    | SetObjective(o: Objective)
    | AddMetabolite(m: string)
    | AddReaction(r: Reaction)
    /** `add_cons_vars`: several variables and constraints at once. */
    | AddConsVars(vs: seq<Variable>, ks: seq<Constraint>)

  predicate Applicable(s: State, e: Edit) {
    e.SetReaction? ==> e.i < |s.reactions|
  }

  function Apply(s: State, e: Edit): State
    requires Applicable(s, e)
  {
    match e
    case SetReaction(i, r) => s.(reactions := s.reactions[i := r])
    case AddVariable(v) => s.(variables := s.variables + [v])
    case AddConstraint(k) => s.(constraints := s.constraints + [k])
    case SetObjective(o) => s.(objective := o)
    case AddMetabolite(m) => s.(metabolites := s.metabolites + [m])
    case AddReaction(r) => s.(reactions := s.reactions + [r])
    case AddConsVars(vs, ks) => s.(variables := s.variables + vs, constraints := s.constraints + ks)
  }

  datatype Undo =
    | RestoreReaction(i: nat, r: Reaction)
    | DropVariable
    | DropConstraint
    | RestoreObjective(o: Objective)
    | DropMetabolite
    | DropReaction
    | DropConsVars(nv: nat, nk: nat)

  /** The undo entry an edit registers: what it overwrote, or a removal of
      what it appended. */
  function Inverse(s: State, e: Edit): Undo
    requires Applicable(s, e)
  {
    match e
    case SetReaction(i, _) => RestoreReaction(i, s.reactions[i])
    case AddVariable(_) => DropVariable
    case AddConstraint(_) => DropConstraint
    case SetObjective(_) => RestoreObjective(s.objective)
    case AddMetabolite(_) => DropMetabolite
    case AddReaction(_) => DropReaction
    case AddConsVars(vs, ks) => DropConsVars(|vs|, |ks|)
  }

  function Drop<T>(s: seq<T>): seq<T> {
    if s == [] then s else s[..|s| - 1]
  }

  function DropLast<T>(s: seq<T>, n: nat): seq<T> {
    if n <= |s| then s[..|s| - n] else []
  }

  function UndoOne(s: State, u: Undo): State {
    match u
    case RestoreReaction(i, r) => if i < |s.reactions| then s.(reactions := s.reactions[i := r]) else s
    case DropVariable => s.(variables := Drop(s.variables))
    case DropConstraint => s.(constraints := Drop(s.constraints))
    case RestoreObjective(o) => s.(objective := o)
    case DropMetabolite => s.(metabolites := Drop(s.metabolites))
    case DropReaction => s.(reactions := Drop(s.reactions))
    case DropConsVars(nv, nk) => s.(variables := DropLast(s.variables, nv), constraints := DropLast(s.constraints, nk))
  }

  /** An edit's undo entry takes the state back to the one before it. */
  lemma UndoInverse(s: State, e: Edit)
    requires Applicable(s, e)
    ensures UndoOne(Apply(s, e), Inverse(s, e)) == s
  {
    match e
    case SetReaction(i, r) =>
      assert s.reactions[i := r][i := s.reactions[i]] == s.reactions;
    case AddVariable(v) =>
      assert (s.variables + [v])[..|s.variables|] == s.variables;
    case AddConstraint(k) =>
      assert (s.constraints + [k])[..|s.constraints|] == s.constraints;
    case SetObjective(_) =>
    case AddMetabolite(m) =>
      assert (s.metabolites + [m])[..|s.metabolites|] == s.metabolites;
    case AddReaction(r) =>
      assert (s.reactions + [r])[..|s.reactions|] == s.reactions;
    case AddConsVars(vs, ks) =>
      assert (s.variables + vs)[..|s.variables|] == s.variables;
      assert (s.constraints + ks)[..|s.constraints|] == s.constraints;
  }

  /** Replaying an undo log from its newest entry to its oldest. */
  function Rollback(s: State, log: seq<Undo>): State
    decreases |log|
  {
    if log == [] then s
    else Rollback(UndoOne(s, log[|log| - 1]), log[..|log| - 1])
  }

  /** Recording an edit together with its undo entry does not change where
      the log rolls back to. */
  lemma RollbackApply(s: State, e: Edit, log: seq<Undo>)
    requires Applicable(s, e)
    ensures Rollback(Apply(s, e), log + [Inverse(s, e)]) == Rollback(s, log)
  {
    var l := log + [Inverse(s, e)];
    assert l[..|l| - 1] == log;
    UndoInverse(s, e);
  }

  /** The elements of `xs` that are not in `ys`, in order. */
  function Without<T(==, !new)>(xs: seq<T>, ys: seq<T>): (r: seq<T>)
    ensures forall v :: v in r <==> v in xs && v !in ys
  {
    if xs == [] then []
    else
      var n := |xs| - 1;
      var front := Without(xs[..n], ys);
      assert xs == xs[..n] + [xs[n]];
      if xs[n] in ys then front else front + [xs[n]]
  }

  /** Removing what was never there changes nothing. */
  lemma {:induction false} WithoutDisjoint<T(!new)>(xs: seq<T>, ys: seq<T>)
    requires forall v :: v in ys ==> v !in xs
    ensures Without(xs, ys) == xs
  {
    if xs != [] {
      var n := |xs| - 1;
      assert forall v :: v in ys ==> v !in xs[..n] by {
        assert xs == xs[..n] + [xs[n]];
      }
      WithoutDisjoint(xs[..n], ys);
      assert xs == xs[..n] + [xs[n]];
    }
  }

  /** Removing the elements just appended returns to the start, however
      the start relates to them. */
  lemma {:induction false} WithoutAppended<T(!new)>(xs: seq<T>, ys: seq<T>, zs: seq<T>)
    requires forall v :: v in zs ==> v in ys
    ensures Without(xs + zs, ys) == Without(xs, ys)
    decreases |zs|
  {
    if zs != [] {
      var n := |zs| - 1;
      assert (xs + zs)[..|xs + zs| - 1] == xs + zs[..n];
      assert (xs + zs)[|xs + zs| - 1] == zs[n];
      WithoutAppended(xs, ys, zs[..n]);
    } else {
      assert xs + zs == xs;
    }
  }

  class Model {
    var reactions: seq<Reaction>
    var metabolites: seq<string>
    var variables: seq<Variable>
    var constraints: seq<Constraint>
    var objective: Objective
    /** The state at the start of the open `with model:` block. */
    var scope: Option<State>
    /** Undo entries registered since the block was opened. */
    var log: seq<Undo>

    function Snapshot(): State
      reads this
    {
      State(reactions, metabolites, variables, constraints, objective)
    }

    /** Rolling back the log returns to the state at the start of the
        scope; outside a scope nothing is logged. */
    predicate Valid()
      reads this
    {
      (scope.None? ==> log == []) &&
      (scope.Some? ==> Rollback(Snapshot(), log) == scope.value)
    }

    constructor (s: State)
      ensures Snapshot() == s && scope.None? && Valid()
    {
      reactions, metabolites, variables, constraints, objective := s.reactions, s.metabolites, s.variables, s.constraints, s.objective;
      scope, log := None, [];
    }

    method Load(s: State)
      modifies this
      ensures Snapshot() == s && scope == old(scope) && log == old(log)
    {
      reactions, metabolites, variables, constraints, objective := s.reactions, s.metabolites, s.variables, s.constraints, s.objective;
    }

    /** Entering `with model:`. */
    method Enter()
      requires Valid() && scope.None?
      modifies this
      ensures Valid() && scope == Some(old(Snapshot())) && Snapshot() == old(Snapshot())
    {
      scope, log := Some(Snapshot()), [];
    }

    /** One edit; inside a scope it registers its undo entry. */
    method Do(e: Edit)
      requires Valid() && Applicable(Snapshot(), e)
      modifies this
      ensures Valid() && Snapshot() == Apply(old(Snapshot()), e) && scope == old(scope)
    {
      var s := Snapshot();
      if scope.Some? {
        RollbackApply(s, e, log);
        log := log + [Inverse(s, e)];
      }
      Load(Apply(s, e));
    }

    /** Leaving `with model:`: the undo entries run newest first, so the
        model is back to the state the scope started with. */
    method Exit()
      requires Valid() && scope.Some?
      modifies this
      ensures Valid() && scope.None? && Snapshot() == old(scope.value)
    {
      var entry := scope.value;
      while log != []
        invariant Rollback(Snapshot(), log) == entry
        invariant scope == Some(entry)
        decreases |log|
      {
        var u := log[|log| - 1];
        Load(UndoOne(Snapshot(), u));
        log := log[..|log| - 1];
      }
      scope := None;
    }

    /** `_remove_variables(vs)` and `_remove_constraints(ks)` on the
        problem, outside any scope: every listed item goes, whether or not
        it was ever added. */
    method Discard(vs: seq<Variable>, ks: seq<Constraint>)
      requires Valid() && scope.None?
      modifies this
      ensures Valid() && scope.None?
      ensures Snapshot() == old(Snapshot()).(variables := Without(old(variables), vs), constraints := Without(old(constraints), ks))
    {
      variables := Without(variables, vs);
      constraints := Without(constraints, ks);
    }

    /** `model.copy()`: an independent model with the same content. */
    method Copy() returns (c: Model)
      requires scope.None?
      ensures fresh(c) && c.Snapshot() == Snapshot() && c.scope.None? && c.Valid()
    {
      c := new Model(Snapshot());
    }
  }
}
