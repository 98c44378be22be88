/** The candidate operators of the objective-fitting heuristic: the
    generators that draw a first population of coefficient vectors (one
    entry per candidate reaction) and the variators that mutate one
    population into the next.

    A candidate is a list of numbers; Python's `0`, `1` and the floats
    drawn compare equal to the reals used here. The random number
    generator is a stream of draws: `rand(k)` is what the `k`-th call of
    `random.rand()` returns, and every operator starts reading the stream at
    a given position and reports where it stopped. */
module FitOperators {
  import opened Wrappers
  import opened Metabolic

  /** The binary operators write 0/1 entries, the linear ones draws. */
  datatype Encoding = Binary | Linear

  /** A value built from the stream and the position of the next unread draw. */
  datatype Drawn<T> = Drawn(values: T, next: nat)

  /** `random.rand()` returns a float in `[0, 1)`. */
  ghost predicate UnitDraws(rand: nat -> real) {
    forall k: nat :: 0.0 <= rand(k) < 1.0
  }

  /** `list.count(v)`. */
  function Count(s: seq<real>, v: real): nat {
    if s == [] then 0 else Count(s[..|s| - 1], v) + (if s[|s| - 1] == v then 1 else 0)
  }

  /** The number of non-zero entries: the reactions a candidate puts into
      the objective. */
  function Selected(s: seq<real>): nat {
    if s == [] then 0 else Selected(s[..|s| - 1]) + (if s[|s| - 1] != 0.0 then 1 else 0)
  }

  lemma {:induction false} CountBound(s: seq<real>, v: real)
    ensures Count(s, v) <= |s|
  {
    if s != [] {
      CountBound(s[..|s| - 1], v);
    }
  }

  /** Overwriting one entry changes the count by what left and what came. */
  lemma {:induction false} CountUpdate(s: seq<real>, k: nat, x: real, v: real)
    requires k < |s|
    ensures Count(s[k := x], v) + (if s[k] == v then 1 else 0) == Count(s, v) + (if x == v then 1 else 0)
  {
    var n := |s| - 1;
    assert s[k := x][..n] == if k == n then s[..n] else s[..n][k := x];
    if k < n {
      CountUpdate(s[..n], k, x, v);
    }
  }

  lemma {:induction false} SelectedUpdate(s: seq<real>, k: nat, x: real)
    requires k < |s|
    ensures Selected(s[k := x]) + (if s[k] != 0.0 then 1 else 0) == Selected(s) + (if x != 0.0 then 1 else 0)
  {
    var n := |s| - 1;
    assert s[k := x][..n] == if k == n then s[..n] else s[..n][k := x];
    if k < n {
      SelectedUpdate(s[..n], k, x);
    }
  }

  /** On a 0/1 list, counting ones and counting non-zero entries agree. */
  lemma {:induction false} CountOnesSelected(s: seq<real>)
    requires forall j :: 0 <= j < |s| ==> s[j] == 0.0 || s[j] == 1.0
    ensures Count(s, 1.0) == Selected(s)
  {
    if s != [] {
      CountOnesSelected(s[..|s| - 1]);
    }
  }

  // ---------------------------------------------------------------- generators

  /** `args.get('max_objectives', 5)`. */
  function MaxObjectives(arg: Option<int>): int {
    if arg.Some? then arg.value else 5
  }

  /** The loop runs over `range(len(representation) - 1)`: the last
      position is never drawn. */
  function Steps(n: nat): nat {
    if n == 0 then 0 else n - 1
  }

  /** What position `i` receives. A first draw below one half leaves a 0;
      otherwise the entry becomes a 1 (binary) or a second draw (linear)
      while the cap admits it and 0 once it does not. `capped` says whether
      the cap is reached; the generators differ in how they decide it. */
  function GenEntry(kind: Encoding, p: Drawn<seq<real>>, i: nat, capped: bool, rand: nat -> real): (q: Drawn<seq<real>>)
    requires i < |p.values|
    ensures |q.values| == |p.values| && q.values == p.values[i := q.values[i]]
    ensures kind.Binary? ==> q.next == p.next + 1 && (q.values[i] == 0.0 || q.values[i] == 1.0)
    ensures kind.Linear? ==> p.next < q.next && (q.values[i] == 0.0 || q.values[i] == rand(p.next + 1))
  {
    if rand(p.next) < 0.5 then Drawn(p.values[i := 0.0], p.next + 1)
    else if !capped then
      (if kind.Binary? then Drawn(p.values[i := 1.0], p.next + 1) else Drawn(p.values[i := rand(p.next + 1)], p.next + 2))
    else Drawn(p.values[i := 0.0], p.next + 1)
  }

  /** The generator as written: the cap reads `individual.count(1)`. */
  function GeneratedAsWritten(kind: Encoding, n: nat, maxObj: int, rand: nat -> real, i: nat): (d: Drawn<seq<real>>)
    requires i <= Steps(n)
    ensures |d.values| == n
  {
    if i == 0 then Drawn(seq(n, _ => 0.0), 0)
    else
      var p := GeneratedAsWritten(kind, n, maxObj, rand, i - 1);
      GenEntry(kind, p, i - 1, !(Count(p.values, 1.0) <= maxObj), rand)
  }

  /** The generator with the cap on the number of selected (non-zero)
      entries, which is what the count of ones means for a 0/1 list. */
  function Generated(kind: Encoding, n: nat, maxObj: int, rand: nat -> real, i: nat): (d: Drawn<seq<real>>)
    requires i <= Steps(n)
    ensures |d.values| == n
  {
    if i == 0 then Drawn(seq(n, _ => 0.0), 0)
    else
      var p := Generated(kind, n, maxObj, rand, i - 1);
      GenEntry(kind, p, i - 1, !(Selected(p.values) <= maxObj), rand)
  }

  /** A fresh individual, one entry per element of `_representation`; a
      missing representation cannot be iterated. */
  function Individual(kind: Encoding, rand: nat -> real, maxObjectives: Option<int>, representation: Option<seq<Reaction>>): Result<seq<real>>
  {
    if representation.None? then Err(TypeError)
    else
      var n := |representation.value|;
      Ok(Generated(kind, n, MaxObjectives(maxObjectives), rand, Steps(n)).values)
  }

  /** The shape of a generated individual: positions not yet reached are
      still 0, binary entries are 0 or 1, linear entries are 0 or a draw,
      and the number of selected entries stays within one above the cap. */
  lemma GeneratedShape(kind: Encoding, n: nat, maxObj: int, rand: nat -> real, i: nat)
    requires i <= Steps(n)
    ensures var d := Generated(kind, n, maxObj, rand, i);
      (forall j :: i <= j < n ==> d.values[j] == 0.0) &&
      (kind.Binary? ==> forall j :: 0 <= j < n ==> d.values[j] == 0.0 || d.values[j] == 1.0) &&
      (kind.Linear? ==> forall j :: 0 <= j < n ==> d.values[j] == 0.0 || exists q: nat :: q < d.next && d.values[j] == rand(q)) &&
      Selected(d.values) <= if maxObj < 0 then 0 else maxObj + 1
  {
    GeneratedUnreached(kind, n, maxObj, rand, i);
    GeneratedCap(kind, n, maxObj, rand, i);
    if kind.Binary? {
      GeneratedBinary(n, maxObj, rand, i);
    } else {
      GeneratedLinear(n, maxObj, rand, i);
    }
  }

  lemma {:induction false} GeneratedUnreached(kind: Encoding, n: nat, maxObj: int, rand: nat -> real, i: nat)
    requires i <= Steps(n)
    ensures forall j :: i <= j < n ==> Generated(kind, n, maxObj, rand, i).values[j] == 0.0
  {
    if i > 0 {
      GeneratedUnreached(kind, n, maxObj, rand, i - 1);
      var p := Generated(kind, n, maxObj, rand, i - 1);
      var d := Generated(kind, n, maxObj, rand, i);
      assert d == GenEntry(kind, p, i - 1, !(Selected(p.values) <= maxObj), rand);
      assert d.values == p.values[i - 1 := d.values[i - 1]];
    }
  }

  lemma {:induction false} GeneratedBinary(n: nat, maxObj: int, rand: nat -> real, i: nat)
    requires i <= Steps(n)
    ensures forall j :: 0 <= j < n ==>
      Generated(Binary, n, maxObj, rand, i).values[j] == 0.0 || Generated(Binary, n, maxObj, rand, i).values[j] == 1.0
  {
    if i > 0 {
      GeneratedBinary(n, maxObj, rand, i - 1);
      var p := Generated(Binary, n, maxObj, rand, i - 1);
      var d := Generated(Binary, n, maxObj, rand, i);
      assert d == GenEntry(Binary, p, i - 1, !(Selected(p.values) <= maxObj), rand);
      assert d.values == p.values[i - 1 := d.values[i - 1]];
    }
  }

  lemma {:induction false} GeneratedLinear(n: nat, maxObj: int, rand: nat -> real, i: nat)
    requires i <= Steps(n)
    ensures forall j :: 0 <= j < n ==>
      (Generated(Linear, n, maxObj, rand, i).values[j] == 0.0 ||
       exists q: nat :: q < Generated(Linear, n, maxObj, rand, i).next && Generated(Linear, n, maxObj, rand, i).values[j] == rand(q))
  {
    if i > 0 {
      GeneratedLinear(n, maxObj, rand, i - 1);
      var d := Generated(Linear, n, maxObj, rand, i);
      var p := Generated(Linear, n, maxObj, rand, i - 1);
      assert d == GenEntry(Linear, p, i - 1, !(Selected(p.values) <= maxObj), rand);
      assert d.values == p.values[i - 1 := d.values[i - 1]];
      forall j | 0 <= j < n && d.values[j] != 0.0
        ensures exists q: nat :: q < d.next && d.values[j] == rand(q)
      {
        if j != i - 1 {
          assert d.values[j] == p.values[j];
        } else {
          assert d.values[j] == rand(p.next + 1);
        }
      }
    }
  }

  lemma {:induction false} GeneratedCap(kind: Encoding, n: nat, maxObj: int, rand: nat -> real, i: nat)
    requires i <= Steps(n)
    ensures Selected(Generated(kind, n, maxObj, rand, i).values) <= if maxObj < 0 then 0 else maxObj + 1
  {
    if i == 0 {
      SelectedZeros(n);
    } else {
      GeneratedCap(kind, n, maxObj, rand, i - 1);
      GeneratedUnreached(kind, n, maxObj, rand, i - 1);
      var p := Generated(kind, n, maxObj, rand, i - 1);
      SelectedUpdate(p.values, i - 1, Generated(kind, n, maxObj, rand, i).values[i - 1]);
    }
  }

  lemma {:induction false} CountAbsent(s: seq<real>, v: real)
    requires forall j :: 0 <= j < |s| ==> s[j] != v
    ensures Count(s, v) == 0
  {
    if s != [] {
      CountAbsent(s[..|s| - 1], v);
    }
  }

  lemma {:induction false} SelectedZeros(n: nat)
    ensures Selected(seq(n, _ => 0.0)) == 0
  {
    if n > 0 {
      assert seq(n, _ => 0.0)[..n - 1] == seq(n - 1, _ => 0.0);
      SelectedZeros(n - 1);
    }
  }

  /** A generated individual has one entry per reaction of the
      representation, its last entry is 0, and it selects at most
      `max_objectives + 1` reactions. */
  lemma IndividualMeaning(kind: Encoding, rand: nat -> real, maxObjectives: Option<int>, representation: Option<seq<Reaction>>)
    ensures var r := Individual(kind, rand, maxObjectives, representation);
      (representation.None? <==> r.Err?) &&
      (r.Err? ==> r.error == TypeError) &&
      (r.Ok? ==>
         |r.value| == |representation.value| &&
         (|r.value| > 0 ==> r.value[|r.value| - 1] == 0.0) &&
         (kind.Binary? ==> forall j :: 0 <= j < |r.value| ==> r.value[j] == 0.0 || r.value[j] == 1.0) &&
         Selected(r.value) <= if MaxObjectives(maxObjectives) < 0 then 0 else MaxObjectives(maxObjectives) + 1)
  {
    if representation.Some? {
      var n := |representation.value|;
      GeneratedShape(kind, n, MaxObjectives(maxObjectives), rand, Steps(n));
    }
  }

  /** Linear entries that are not 0 are draws, so with draws in `[0, 1)`
      every entry lies in `[0, 1)`. */
  lemma LinearInUnit(rand: nat -> real, maxObjectives: Option<int>, representation: Option<seq<Reaction>>)
    requires UnitDraws(rand)
    ensures var r := Individual(Linear, rand, maxObjectives, representation);
      r.Ok? ==> forall j :: 0 <= j < |r.value| ==> 0.0 <= r.value[j] < 1.0
  {
    if representation.Some? {
      var n := |representation.value|;
      GeneratedShape(Linear, n, MaxObjectives(maxObjectives), rand, Steps(n));
    }
  }

  /** For the binary generator the two caps are the same: its entries are
      0 or 1, so counting ones counts the selected entries. */
  lemma {:induction false} BinaryCapAsWritten(n: nat, maxObj: int, rand: nat -> real, i: nat)
    requires i <= Steps(n)
    ensures GeneratedAsWritten(Binary, n, maxObj, rand, i) == Generated(Binary, n, maxObj, rand, i)
  {
    if i > 0 {
      BinaryCapAsWritten(n, maxObj, rand, i - 1);
      GeneratedShape(Binary, n, maxObj, rand, i - 1);
      CountOnesSelected(Generated(Binary, n, maxObj, rand, i - 1).values);
    }
  }

  /** The linear generator as written never applies its cap: with
      `max_objectives` 0 and every draw 0.75, three positions give two
      selected reactions, where the cap admits one. */
  lemma LinearCapAsWrittenInert()
    ensures var d := GeneratedAsWritten(Linear, 3, 0, (k: nat) => 0.75, 2);
      d.values == [0.75, 0.75, 0.0] && Selected(d.values) == 2
    ensures Generated(Linear, 3, 0, (k: nat) => 0.75, 2).values == [0.75, 0.0, 0.0]
  {
    var rand := (k: nat) => 0.75;
    var z := seq(3, _ => 0.0);
    CountAbsent(z, 1.0);
    SelectedZeros(3);
    var a1 := GeneratedAsWritten(Linear, 3, 0, rand, 1);
    assert a1.values == z[0 := 0.75];
    CountAbsent(a1.values, 1.0);
    SelectedUpdate(z, 0, 0.75);
    SelectedUpdate(a1.values, 1, 0.75);
    var g1 := Generated(Linear, 3, 0, rand, 1);
    assert g1.values == z[0 := 0.75];
  }

  /** `zero_one_binary_generator`: the individual is a preallocated list
      written by index, the cap re-read at every step. */
  method BinaryGenerator(rand: nat -> real, maxObjectives: Option<int>, representation: Option<seq<Reaction>>) returns (r: Result<seq<real>>)
    ensures r == Individual(Binary, rand, maxObjectives, representation)
  {
    var maxObj := MaxObjectives(maxObjectives);
    if representation.None? {
      return Err(TypeError);
    }
    var n := |representation.value|;
    var individual := new real[n](_ => 0.0);
    var next := 0;
    assert individual[..] == seq(n, _ => 0.0);
    for i := 0 to Steps(n)
      invariant Drawn(individual[..], next) == Generated(Binary, n, maxObj, rand, i)
    {
      if rand(next) < 0.5 {
        individual[i] := 0.0;
      } else if Selected(individual[..]) <= maxObj {
        individual[i] := 1.0;
      } else {
        individual[i] := 0.0;
      }
      next := next + 1;
    }
    return Ok(individual[..]);
  }

  /** `zero_one_linear_generator`: as the binary one, with a second draw
      as the entry's value. */
  method LinearGenerator(rand: nat -> real, maxObjectives: Option<int>, representation: Option<seq<Reaction>>) returns (r: Result<seq<real>>)
    ensures r == Individual(Linear, rand, maxObjectives, representation)
  {
    var maxObj := MaxObjectives(maxObjectives);
    if representation.None? {
      return Err(TypeError);
    }
    var n := |representation.value|;
    var individual := new real[n](_ => 0.0);
    var next := 0;
    assert individual[..] == seq(n, _ => 0.0);
    for i := 0 to Steps(n)
      invariant Drawn(individual[..], next) == Generated(Linear, n, maxObj, rand, i)
    {
      if rand(next) < 0.5 {
        individual[i] := 0.0;
        next := next + 1;
      } else if Selected(individual[..]) <= maxObj {
        individual[i] := rand(next + 1);
        next := next + 2;
      } else {
        individual[i] := 0.0;
        next := next + 1;
      }
    }
    return Ok(individual[..]);
  }

  // ---------------------------------------------------------------- variators

  /** `args.get("mutation_rate", 0.15)`. */
  function MutationRate(arg: Option<real>): real {
    if arg.Some? then arg.value else 0.15
  }

  /** A fresh entry made from a draw `d`: 1 or 0 by a fair coin (binary),
      the draw itself (linear). */
  function FreshValue(kind: Encoding, d: real): real {
    if kind.Binary? then (if d < 0.5 then 1.0 else 0.0) else d
  }

  /** One entry as written: it is KEPT when the first draw falls below the
      mutation rate, and re-drawn otherwise. */
  function MutationAsWritten(kind: Encoding, v: real, rate: real, rand: nat -> real, k: nat): Drawn<real> {
    if rand(k) < rate then Drawn(v, k + 1) else Drawn(FreshValue(kind, rand(k + 1)), k + 2)
  }

  /** With a mutation rate of 1 the variators as written change nothing:
      every draw is below the rate, so every entry is kept. */
  lemma MutationAsWrittenInverted(kind: Encoding, v: real, rand: nat -> real, k: nat)
    requires UnitDraws(rand)
    ensures MutationAsWritten(kind, v, 1.0, rand, k).values == v
  {
  }

  /** One entry, mutated with probability `rate`: a first draw below the
      rate re-draws the entry, otherwise it is kept. */
  function Mutation(kind: Encoding, v: real, rate: real, rand: nat -> real, k: nat): Drawn<real> {
    if rand(k) < rate then Drawn(FreshValue(kind, rand(k + 1)), k + 2) else Drawn(v, k + 1)
  }

  /** One candidate, entry by entry from the left. */
  function Mutant(kind: Encoding, c: seq<real>, rate: real, rand: nat -> real, k: nat): (d: Drawn<seq<real>>)
    ensures |d.values| == |c|
    ensures k + |c| <= d.next <= k + 2 * |c|
  {
    if c == [] then Drawn([], k)
    else
      var p := Mutant(kind, c[..|c| - 1], rate, rand, k);
      var g := Mutation(kind, c[|c| - 1], rate, rand, p.next);
      Drawn(p.values + [g.values], g.next)
  }

  /** The population, candidate by candidate from the left. */
  function Offspring(kind: Encoding, cs: seq<seq<real>>, rate: real, rand: nat -> real, k: nat): (d: Drawn<seq<seq<real>>>)
    ensures |d.values| == |cs|
    ensures forall i :: 0 <= i < |cs| ==> |d.values[i]| == |cs[i]|
  {
    if cs == [] then Drawn([], k)
    else
      var p := Offspring(kind, cs[..|cs| - 1], rate, rand, k);
      var m := Mutant(kind, cs[|cs| - 1], rate, rand, p.next);
      Drawn(p.values + [m.values], m.next)
  }

  /** A value the variator may write in place of an entry. */
  ghost predicate Fresh(kind: Encoding, v: real, rand: nat -> real) {
    if kind.Binary? then v == 0.0 || v == 1.0 else exists q: nat :: v == rand(q)
  }

  /** Every entry of a mutant is the original entry or a fresh value; at
      rate 0 nothing changes, and at rate 1 every entry is fresh. */
  lemma {:induction false} MutantEntries(kind: Encoding, c: seq<real>, rate: real, rand: nat -> real, k: nat)
    ensures var d := Mutant(kind, c, rate, rand, k);
      forall j :: 0 <= j < |c| ==> d.values[j] == c[j] || Fresh(kind, d.values[j], rand)
    ensures UnitDraws(rand) && rate <= 0.0 ==> Mutant(kind, c, rate, rand, k).values == c
    ensures UnitDraws(rand) && rate >= 1.0 ==> forall j :: 0 <= j < |c| ==> Fresh(kind, Mutant(kind, c, rate, rand, k).values[j], rand)
  {
    if c != [] {
      var n := |c| - 1;
      MutantEntries(kind, c[..n], rate, rand, k);
      var p := Mutant(kind, c[..n], rate, rand, k);
      var g := Mutation(kind, c[n], rate, rand, p.next);
      assert c == c[..n] + [c[n]];
      if rand(p.next) < rate {
        assert Fresh(kind, g.values, rand) by {
          if kind.Linear? {
            assert g.values == rand(p.next + 1);
          }
        }
      }
    }
  }

  /** The variators build one new candidate per candidate, of the same
      length, each entry kept or fresh; a 0/1 population stays 0/1 under
      the binary variator. */
  lemma OffspringMeaning(kind: Encoding, cs: seq<seq<real>>, rate: real, rand: nat -> real, k: nat, i: nat)
    requires i < |cs|
    ensures var d := Offspring(kind, cs, rate, rand, k);
      |d.values| == |cs| && |d.values[i]| == |cs[i]| &&
      forall j :: 0 <= j < |cs[i]| ==> d.values[i][j] == cs[i][j] || Fresh(kind, d.values[i][j], rand)
    ensures UnitDraws(rand) && rate <= 0.0 ==> Offspring(kind, cs, rate, rand, k).values == cs
  {
    OffspringNth(kind, cs, rate, rand, k, i);
    var q: nat :| Offspring(kind, cs, rate, rand, k).values[i] == Mutant(kind, cs[i], rate, rand, q).values;
    MutantEntries(kind, cs[i], rate, rand, q);
    OffspringRateZero(kind, cs, rate, rand, k);
  }

  /** The `i`-th new candidate is the mutant of the `i`-th candidate,
      drawn from where the previous one stopped. */
  lemma {:induction false} OffspringNth(kind: Encoding, cs: seq<seq<real>>, rate: real, rand: nat -> real, k: nat, i: nat)
    requires i < |cs|
    ensures exists q: nat :: Offspring(kind, cs, rate, rand, k).values[i] == Mutant(kind, cs[i], rate, rand, q).values
  {
    var n := |cs| - 1;
    var p := Offspring(kind, cs[..n], rate, rand, k);
    if i < n {
      OffspringNth(kind, cs[..n], rate, rand, k, i);
      var q: nat :| p.values[i] == Mutant(kind, cs[..n][i], rate, rand, q).values;
      assert Offspring(kind, cs, rate, rand, k).values[i] == Mutant(kind, cs[i], rate, rand, q).values;
    } else {
      assert Offspring(kind, cs, rate, rand, k).values[i] == Mutant(kind, cs[i], rate, rand, p.next).values;
    }
  }

  lemma {:induction false} OffspringRateZero(kind: Encoding, cs: seq<seq<real>>, rate: real, rand: nat -> real, k: nat)
    ensures UnitDraws(rand) && rate <= 0.0 ==> Offspring(kind, cs, rate, rand, k).values == cs
  {
    if cs != [] && UnitDraws(rand) && rate <= 0.0 {
      var n := |cs| - 1;
      OffspringRateZero(kind, cs[..n], rate, rand, k);
      var p := Offspring(kind, cs[..n], rate, rand, k);
      MutantEntries(kind, cs[n], rate, rand, p.next);
      assert cs == cs[..n] + [cs[n]];
    }
  }

  /** One more entry: the prefix's mutant followed by that entry's
      mutation, drawn where the prefix stopped. */
  lemma MutantStep(kind: Encoding, c: seq<real>, rate: real, rand: nat -> real, k: nat, j: nat)
    requires j < |c|
    ensures var p := Mutant(kind, c[..j], rate, rand, k);
      var g := Mutation(kind, c[j], rate, rand, p.next);
      Mutant(kind, c[..j + 1], rate, rand, k) == Drawn(p.values + [g.values], g.next)
  {
    assert c[..j + 1][..j] == c[..j];
  }

  /** `new_candidate`: a preallocated list written entry by entry. */
  method BinaryMutant(c: seq<real>, rate: real, rand: nat -> real, k: nat) returns (m: seq<real>, next: nat)
    ensures Drawn(m, next) == Mutant(Binary, c, rate, rand, k)
  {
    var mutant := new real[|c|](_ => 0.0);
    next := k;
    for j := 0 to |c|
      invariant Drawn(mutant[..j], next) == Mutant(Binary, c[..j], rate, rand, k)
    {
      ghost var before := mutant[..j];
      MutantStep(Binary, c, rate, rand, k, j);
      ghost var g := Mutation(Binary, c[j], rate, rand, next);
      var v;
      if rand(next) < rate {
        v := if rand(next + 1) < 0.5 then 1.0 else 0.0;
        next := next + 2;
      } else {
        v := c[j];
        next := next + 1;
      }
      assert Drawn(v, next) == g;
      mutant[j] := v;
      assert mutant[..j + 1] == before + [v];
    }
    assert c[..|c|] == c && mutant[..] == mutant[..|c|];
    m := mutant[..];
  }

  /** `zero_one_binary_variator`: a preallocated population written
      candidate by candidate. */
  method BinaryVariator(rand: nat -> real, candidates: seq<seq<real>>, mutationRate: Option<real>) returns (newCandidates: seq<seq<real>>)
    ensures newCandidates == Offspring(Binary, candidates, MutationRate(mutationRate), rand, 0).values
  {
    var rate := MutationRate(mutationRate);
    var population := new seq<real>[|candidates|](_ => []);
    var next := 0;
    for i := 0 to |candidates|
      invariant Drawn(population[..i], next) == Offspring(Binary, candidates[..i], rate, rand, 0)
    {
      assert candidates[..i + 1][..i] == candidates[..i];
      var m, n := BinaryMutant(candidates[i], rate, rand, next);
      population[i] := m;
      next := n;
      assert population[..i + 1] == population[..i] + [m];
    }
    assert candidates[..|candidates|] == candidates;
    newCandidates := population[..];
  }

  /** The list comprehension of the linear variator: each entry appended
      in turn. */
  method LinearMutant(c: seq<real>, rate: real, rand: nat -> real, k: nat) returns (m: seq<real>, next: nat)
    ensures Drawn(m, next) == Mutant(Linear, c, rate, rand, k)
  {
    m, next := [], k;
    for j := 0 to |c|
      invariant Drawn(m, next) == Mutant(Linear, c[..j], rate, rand, k)
    {
      assert c[..j + 1][..j] == c[..j];
      if rand(next) < rate {
        m := m + [rand(next + 1)];
        next := next + 2;
      } else {
        m := m + [c[j]];
        next := next + 1;
      }
    }
    assert c[..|c|] == c;
  }

  /** `zero_one_linear_variator`. */
  method LinearVariator(rand: nat -> real, candidates: seq<seq<real>>, mutationRate: Option<real>) returns (newCandidates: seq<seq<real>>)
    ensures newCandidates == Offspring(Linear, candidates, MutationRate(mutationRate), rand, 0).values
  {
    var rate := MutationRate(mutationRate);
    var population := new seq<real>[|candidates|](_ => []);
    var next := 0;
    for i := 0 to |candidates|
      invariant Drawn(population[..i], next) == Offspring(Linear, candidates[..i], rate, rand, 0)
    {
      assert candidates[..i + 1][..i] == candidates[..i];
      var m, n := LinearMutant(candidates[i], rate, rand, next);
      population[i] := m;
      next := n;
      assert population[..i + 1] == population[..i] + [m];
    }
    assert candidates[..|candidates|] == candidates;
    newCandidates := population[..];
  }
}
