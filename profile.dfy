/** The expression profile: a matrix of identifier × condition values
    with optional p-values for every pair of conditions. The pure parts
    (shape check, lookups, `to_dict`, `minmax`, p-value column names, the
    data-frame import and the replicate collapse) are functions over the
    profile's values; the object itself is a class whose p-values the
    setter and deleter replace, with `differences` and `to_reaction_dict`
    as loops proved against specification functions. */
module Profile {
  import opened Wrappers
  import opened Tables
  import Dicts
  import Utils
  import Text
  import Gpr
  import Metabolic

  /** A condition argument: a column position or a condition label. */
  datatype Condition = ByIndex(i: int) | ByName(name: string)

  /** One half of an indexing key `profile[a, b]`. */
  datatype Part = PInt(i: int) | PStr(s: string) | PSlice(lo: Option<int>, hi: Option<int>) | POther

  datatype Key = Pair(row: Part, col: Part) | NotTuple

  /** What numpy returns for the key: one value, a row or column, or a
      block. */
  datatype Item = Scalar(v: real) | Vector(vs: seq<real>) | Grid(m: Matrix)

  // ---------------------------------------------------------------------
  // Construction

  /** The constructor's dimension check as written: with exactly one
      identifier only the first axis is compared, and with the number of
      conditions. */
  predicate ShapeCheckAsWritten(nIds: nat, nConds: nat, m: Matrix) {
    if nIds == 1 then m.Height() == nConds else m.Height() == nIds && m.width == nConds
  }

  /** The dimensions every other operation relies on: one row per
      identifier and one column per condition. */
  predicate ShapeOk(nIds: nat, nConds: nat, m: Matrix) {
    m.Valid() && m.Height() == nIds && m.width == nConds
  }

  /** Away from a single identifier the written check is the intended one. */
  lemma ShapeCheckAgrees(nIds: nat, nConds: nat, m: Matrix)
    requires m.Valid() && (nIds != 1 || (nConds == 1 && m.width == 1))
    ensures ShapeCheckAsWritten(nIds, nConds, m) <==> ShapeOk(nIds, nConds, m)
  {
  }

  /** One gene measured under two conditions: the 1×2 matrix is refused
      and the 2×1 matrix, which no lookup can use, is accepted. */
  lemma SingleIdentifierShape()
    ensures !ShapeCheckAsWritten(1, 2, Matrix([[1.0, 2.0]], 2))
    ensures ShapeOk(1, 2, Matrix([[1.0, 2.0]], 2))
    ensures ShapeCheckAsWritten(1, 2, Matrix([[1.0], [2.0]], 1))
    ensures !ShapeOk(1, 2, Matrix([[1.0], [2.0]], 1))
  {
  }

  // ---------------------------------------------------------------------
  // Indexing

  predicate Positional(p: Part) {
    p.PInt? || p.PSlice?
  }

  /** The positions an int or a slice selects on an axis of length `n`. */
  function Positions(p: Part, n: nat): (r: Result<seq<nat>>)
    requires Positional(p)
    ensures r.Ok? ==> forall k :: 0 <= k < |r.value| ==> r.value[k] < n
    ensures p.PSlice? ==> r == Ok(SlicePositions(p.lo, p.hi, n))
  {
    if p.PSlice? then Ok(SlicePositions(p.lo, p.hi, n))
    else
      var i := PyIndex(p.i, n);
      if i.Err? then Err(i.error) else Ok([i.value])
  }

  function SelectRows(m: Matrix, ps: seq<nat>): (r: Matrix)
    requires m.Valid() && forall k :: 0 <= k < |ps| ==> ps[k] < |m.rows|
    ensures r.Valid() && r.width == m.width && r.Height() == |ps|
    ensures forall k :: 0 <= k < |ps| ==> r.rows[k] == m.rows[ps[k]]
  {
    Matrix(seq(|ps|, k requires 0 <= k < |ps| => m.rows[ps[k]]), m.width)
  }

  /** `expression[i, j]` with ints and slices. */
  function Select(m: Matrix, r: Part, c: Part): (it: Result<Item>)
    requires m.Valid() && Positional(r) && Positional(c)
    ensures it.Err? ==> it.error == IndexError
  {
    var rp := Positions(r, m.Height());
    var cp := Positions(c, m.width);
    if rp.Err? || cp.Err? then Err(IndexError)
    else
      var g := SelectColumns(SelectRows(m, rp.value), cp.value);
      if r.PInt? && c.PInt? then Ok(Scalar(g.rows[0][0]))
      else if r.PInt? then Ok(Vector(g.rows[0]))
      else if c.PInt? then Ok(Vector(g.Column(0)))
      else Ok(Grid(g))
  }

  /** `profile[key]`: two labels look up the last identifier and condition
      with those labels, two ints or slices index positionally, anything
      else raises. */
  function ItemAt(ids: seq<string>, conds: seq<string>, m: Matrix, key: Key): (it: Result<Item>)
    requires ShapeOk(|ids|, |conds|, m)
    ensures it == Err(AttributeError) <==>
              key.NotTuple? || !((key.row.PStr? && key.col.PStr?) || (Positional(key.row) && Positional(key.col)))
    ensures key.Pair? && key.row.PStr? && key.col.PStr? ==>
              (it.Ok? <==> key.row.s in ids && key.col.s in conds) && (it.Err? ==> it.error == KeyError)
  {
    match key
    case NotTuple => Err(AttributeError)
    case Pair(r, c) =>
      if r.PStr? && c.PStr? then
        var i := Dicts.LastIndex(ids, r.s);
        var j := Dicts.LastIndex(conds, c.s);
        if i.None? || j.None? then Err(KeyError) else Ok(Scalar(m.rows[i.value][j.value]))
      else if Positional(r) && Positional(c) then Select(m, r, c)
      else Err(AttributeError)
  }

  /** A label lookup is the positional lookup at the label's position. */
  lemma ItemByLabel(ids: seq<string>, conds: seq<string>, m: Matrix, a: string, b: string)
    requires ShapeOk(|ids|, |conds|, m) && a in ids && b in conds
    ensures ItemAt(ids, conds, m, Pair(PStr(a), PStr(b)))
         == ItemAt(ids, conds, m, Pair(PInt(Dicts.LastIndex(ids, a).value), PInt(Dicts.LastIndex(conds, b).value)))
  {
  }

  /** Two ints select one value; a negative index counts from the end. */
  lemma ItemByPosition(ids: seq<string>, conds: seq<string>, m: Matrix, i: nat, j: nat)
    requires ShapeOk(|ids|, |conds|, m) && i < |ids| && j < |conds|
    ensures ItemAt(ids, conds, m, Pair(PInt(i), PInt(j))) == Ok(Scalar(m.rows[i][j]))
    ensures ItemAt(ids, conds, m, Pair(PInt(i - |ids|), PInt(j - |conds|))) == Ok(Scalar(m.rows[i][j]))
  {
  }

  /** `profile[:, :]` is the whole matrix. */
  lemma ItemWhole(ids: seq<string>, conds: seq<string>, m: Matrix)
    requires ShapeOk(|ids|, |conds|, m)
    ensures ItemAt(ids, conds, m, Pair(PSlice(None, None), PSlice(None, None))) == Ok(Grid(m))
  {
    var all := Range(|ids|);
    var g := SelectColumns(SelectRows(m, all), Range(|conds|));
    assert forall i :: 0 <= i < |ids| ==> g.rows[i] == m.rows[i];
    assert g.rows == m.rows;
  }

  /** `profile[:, j]` is column `j`. */
  lemma ItemColumn(ids: seq<string>, conds: seq<string>, m: Matrix, j: nat)
    requires ShapeOk(|ids|, |conds|, m) && j < |conds|
    ensures ItemAt(ids, conds, m, Pair(PSlice(None, None), PInt(j))) == Ok(Vector(m.Column(j)))
  {
    var g := SelectColumns(SelectRows(m, Range(|ids|)), [j]);
    assert g.Column(0) == m.Column(j);
  }

  // ---------------------------------------------------------------------
  // to_dict and minmax

  /** The column a condition argument names: an int index (negative ones
      count from the end) or a label's last position. */
  function ConditionIndex(conds: seq<string>, c: Condition): (r: Result<nat>)
    ensures r.Ok? ==> r.value < |conds|
    ensures c.ByName? ==> (r.Ok? <==> c.name in conds) && (r.Ok? ==> conds[r.value] == c.name)
    ensures c.ByName? && r.Err? ==> r.error == KeyError
    ensures c.ByIndex? ==> r == PyIndex(c.i, |conds|)
  {
    match c
    case ByIndex(i) => PyIndex(i, |conds|)
    case ByName(n) =>
      var j := Dicts.LastIndex(conds, n);
      if j.None? then Err(KeyError) else Ok(j.value)
  }

  /** `to_dict(condition)`: each identifier mapped to its value in the
      chosen column. */
  function ToDictOf(ids: seq<string>, conds: seq<string>, m: Matrix, c: Condition): (r: Result<map<string, real>>)
    requires ShapeOk(|ids|, |conds|, m)
    ensures r.Err? <==> ConditionIndex(conds, c).Err?
    ensures r.Ok? ==> forall k :: k in r.value <==> k in ids
  {
    var j := ConditionIndex(conds, c);
    if j.Err? then Err(j.error) else Ok(Dicts.Zip(ids, m.Column(j.value)))
  }

  /** Each identifier holds the value in the chosen column of its last row. */
  lemma ToDictLookup(ids: seq<string>, conds: seq<string>, m: Matrix, c: Condition, g: string)
    requires ShapeOk(|ids|, |conds|, m) && ToDictOf(ids, conds, m, c).Ok? && g in ids
    ensures ToDictOf(ids, conds, m, c).value[g]
         == m.rows[Dicts.LastIndex(ids, g).value][ConditionIndex(conds, c).value]
  {
    Dicts.ZipLookup(ids, m.Column(ConditionIndex(conds, c).value), g);
  }

  /** The values `minmax` looks at: everything, one column by position, or
      one column by label. */
  function MinMaxValues(ids: seq<string>, conds: seq<string>, m: Matrix, c: Option<Condition>): (r: Result<seq<real>>)
    requires ShapeOk(|ids|, |conds|, m)
    ensures c.None? ==> r == Ok(Entries(m.rows))
    ensures c.Some? ==> (r.Ok? <==> ConditionIndex(conds, c.value).Ok?)
    ensures c.Some? && r.Ok? ==> r.value == m.Column(ConditionIndex(conds, c.value).value)
  {
    if c.None? then
      ItemWhole(ids, conds, m);
      Ok(Entries(m.rows))
    else
      var j := ConditionIndex(conds, c.value);
      if j.Err? then Err(j.error)
      else
        ItemColumn(ids, conds, m, j.value);
        Ok(m.Column(j.value))
  }

  /** `minmax(condition)`: the smallest and largest of the selected values;
      numpy refuses an empty selection. */
  function MinMaxOf(ids: seq<string>, conds: seq<string>, m: Matrix, c: Option<Condition>): (r: Result<(real, real)>)
    requires ShapeOk(|ids|, |conds|, m)
    ensures var v := MinMaxValues(ids, conds, m, c);
      (r.Ok? <==> v.Ok? && |v.value| > 0) &&
      (r.Ok? ==> r.value.0 in v.value && r.value.1 in v.value) &&
      (r.Ok? ==> forall k :: 0 <= k < |v.value| ==> r.value.0 <= v.value[k] <= r.value.1)
    ensures var v := MinMaxValues(ids, conds, m, c); v.Ok? && |v.value| == 0 ==> r == Err(ValueError)
  {
    var v := MinMaxValues(ids, conds, m, c);
    if v.Err? then Err(v.error)
    else if |v.value| == 0 then Err(ValueError)
    else Ok((Minimum(v.value), Maximum(v.value)))
  }

  /** Over the whole matrix, `minmax()` bounds every entry. */
  lemma MinMaxWhole(ids: seq<string>, conds: seq<string>, m: Matrix)
    requires ShapeOk(|ids|, |conds|, m) && MinMaxOf(ids, conds, m, None).Ok?
    ensures var r := MinMaxOf(ids, conds, m, None).value;
      forall i, j :: 0 <= i < |ids| && 0 <= j < |conds| ==> r.0 <= m.rows[i][j] <= r.1
  {
    var r := MinMaxOf(ids, conds, m, None).value;
    var e := Entries(m.rows);
    forall i, j | 0 <= i < |ids| && 0 <= j < |conds| ensures r.0 <= m.rows[i][j] <= r.1 {
      assert m.rows[i][j] in e;
      var k :| 0 <= k < |e| && e[k] == m.rows[i][j];
    }
  }

  // ---------------------------------------------------------------------
  // p-values

  /** The index pairs `combinations(range(n), 2)` yields from first index
      `a` on, in order: (a, a+1), ..., (a, n-1), (a+1, a+2), ... */
  function PairsFrom(a: nat, n: nat): (ps: seq<(nat, nat)>)
    ensures forall k :: 0 <= k < |ps| ==> a <= ps[k].0 < ps[k].1 < n
    decreases n - a
  {
    if a >= n then []
    else seq(n - a - 1, k requires 0 <= k < n - a - 1 => (a, a + 1 + k)) + PairsFrom(a + 1, n)
  }

  function Pairs(n: nat): seq<(nat, nat)> {
    PairsFrom(0, n)
  }

  /** Where the pair (x, y) sits in `PairsFrom(a, n)`. */
  function Slot(a: nat, x: nat, y: nat, n: nat): nat
    requires a <= x < y < n
    decreases x - a
  {
    if x == a then y - a - 1 else (n - a - 1) + Slot(a + 1, x, y, n)
  }

  /** Every pair of distinct positions occurs, at its slot. */
  lemma {:induction false} PairsFromSlot(a: nat, x: nat, y: nat, n: nat)
    requires a <= x < y < n
    ensures Slot(a, x, y, n) < |PairsFrom(a, n)|
    ensures PairsFrom(a, n)[Slot(a, x, y, n)] == (x, y)
    decreases x - a
  {
    var head: seq<(nat, nat)> := seq(n - a - 1, k requires 0 <= k < n - a - 1 => (a, a + 1 + k));
    assert PairsFrom(a, n) == head + PairsFrom(a + 1, n);
    if x > a {
      PairsFromSlot(a + 1, x, y, n);
    }
  }

  /** The number of pairs is n(n-1)/2. */
  lemma {:induction false} PairsFromLength(a: nat, n: nat)
    requires a <= n
    ensures 2 * |PairsFrom(a, n)| == (n - a) * (n - a - 1)
    decreases n - a
  {
    if a < n {
      PairsFromLength(a + 1, n);
      assert (n - a) * (n - a - 1) == 2 * (n - a - 1) + (n - a - 1) * (n - a - 2);
    }
  }

  /** The first n-1 pairs all start with the first condition. */
  lemma PairsHead(n: nat, k: nat)
    requires k + 1 < n
    ensures k < |Pairs(n)| && Pairs(n)[k] == (0, k + 1)
  {
    var head: seq<(nat, nat)> := seq(n - 1, j requires 0 <= j < n - 1 => (0, 1 + j));
    assert Pairs(n) == head + PairsFrom(1, n);
  }

  /** `p_value_columns`: "A B p-value" for every pair of conditions, in
      `combinations` order. */
  function PValueColumns(conds: seq<string>): (cs: seq<string>)
    ensures |cs| == |Pairs(|conds|)|
    ensures forall k :: 0 <= k < |cs| ==>
              cs[k] == conds[Pairs(|conds|)[k].0] + " " + conds[Pairs(|conds|)[k].1] + " p-value"
  {
    var ps := Pairs(|conds|);
    seq(|ps|, k requires 0 <= k < |ps| => conds[ps[k].0] + " " + conds[ps[k].1] + " p-value")
  }

  /** The label of the column holding the p-value between conditions x < y. */
  lemma PValueColumnOf(conds: seq<string>, x: nat, y: nat)
    requires x < y < |conds|
    ensures Slot(0, x, y, |conds|) < |PValueColumns(conds)|
    ensures PValueColumns(conds)[Slot(0, x, y, |conds|)] == conds[x] + " " + conds[y] + " p-value"
  {
    PairsFromSlot(0, x, y, |conds|);
  }

  lemma PValueColumnsTwo()
    ensures PValueColumns(["T1", "T2"]) == ["T1 T2 p-value"]
  {
    assert Pairs(2) == [(0, 1)];
    var cs := PValueColumns(["T1", "T2"]);
    assert |cs| == 1;
    assert cs[0] == "T1" + " " + "T2" + " p-value";
    assert "T1" + " " + "T2" + " p-value" == "T1 T2 p-value";
  }

  /** Some entry is exactly zero. */
  predicate HasZero(p: Matrix) {
    exists i, j :: 0 <= i < |p.rows| && 0 <= j < |p.rows[i]| && p.rows[i][j] == 0.0
  }

  /** The getter as written: `None.all()` raises AttributeError, and an
      array with a zero entry is reported as "No p-values defined". */
  function PValuesAsWritten(p: Option<Matrix>): (r: Result<Matrix>)
    ensures r.Ok? <==> p.Some? && !HasZero(p.value)
    ensures r.Ok? ==> r.value == p.value
    ensures p.None? ==> r == Err(AttributeError)
    ensures p.Some? && HasZero(p.value) ==> r == Err(ValueError)
  {
    if p.None? then Err(AttributeError)
    else if HasZero(p.value) then Err(ValueError)
    else Ok(p.value)
  }

  /** The getter as its message says: an error exactly when no p-values are
      defined. */
  function PValuesOf(p: Option<Matrix>): (r: Result<Matrix>)
    ensures r.Ok? <==> p.Some?
    ensures r.Ok? ==> r.value == p.value
    ensures r.Err? ==> r.error == ValueError
  {
    if p.None? then Err(ValueError) else Ok(p.value)
  }

  /** A p-value of exactly zero is a defined p-value, yet the written getter
      refuses it. */
  lemma ZeroPValueRefused()
    ensures PValuesAsWritten(Some(Matrix([[0.0]], 1))) == Err(ValueError)
    ensures PValuesOf(Some(Matrix([[0.0]], 1))) == Ok(Matrix([[0.0]], 1))
  {
    assert Matrix([[0.0]], 1).rows[0][0] == 0.0;
  }

  // ---------------------------------------------------------------------
  // differences (MADE trend signs)

  function Sign(x: real): int {
    if x > 0.0 then 1 else if x < 0.0 then -1 else 0
  }

  /** One trend entry: the direction of change when the p-value is at most
      the cutoff, otherwise 0. */
  function Step(start: real, end: real, p: real, t: real): (s: int)
    ensures s == (if p <= t then Sign(end - start) else 0)
    ensures -1 <= s <= 1
  {
    if p <= t then
      if start < end then 1 else if start > end then -1 else 0
    else 0
  }

  /** The trend entries of one identifier: change from condition k to k+1,
      judged with the p-value in column k. */
  function Trends(row: seq<real>, prow: seq<real>, t: real): (ts: seq<int>)
    requires |row| <= |prow| + 1
    ensures |ts| == if |row| == 0 then 0 else |row| - 1
    ensures forall k :: 0 <= k < |ts| ==> ts[k] == Step(row[k], row[k + 1], prow[k], t)
  {
    if |row| == 0 then []
    else seq(|row| - 1, k requires 0 <= k < |row| - 1 => Step(row[k], row[k + 1], prow[k], t))
  }

  /** Whether the loop of `differences` reads every p-value it needs. */
  predicate CoversTrends(m: Matrix, pv: Result<Matrix>, n: nat) {
    pv.Ok? && pv.value.Valid() && pv.value.Height() >= n && pv.value.width + 1 >= m.width
  }

  function TrendRow(m: Matrix, pv: Result<Matrix>, j: nat, t: real): seq<int>
    requires m.Valid() && j < m.Height()
  {
    if m.width > 1 && CoversTrends(m, pv, j + 1) then Trends(m.rows[j], pv.value.rows[j], t) else []
  }

  /** The entries gathered for row `j` by the inner loop of `differences`
      are its trend row. */
  lemma TrendRowDone(m: Matrix, pv: Result<Matrix>, j: nat, t: real, row: seq<int>)
    requires m.Valid() && j < m.Height()
    requires m.width <= 1 ==> row == []
    requires m.width > 1 ==> pv.Ok? && pv.value.Valid() && pv.value.Height() > j && pv.value.width + 1 >= m.width
    requires m.width > 1 ==> |row| == m.width - 1 && forall k :: 0 <= k < |row| ==>
      row[k] == Step(m.rows[j][k], m.rows[j][k + 1], pv.value.rows[j][k], t)
    ensures row == TrendRow(m, pv, j, t)
  {
    if m.width > 1 {
      assert CoversTrends(m, pv, j + 1);
      assert row == Trends(m.rows[j], pv.value.rows[j], t);
    }
  }

  function TrendRows(m: Matrix, pv: Result<Matrix>, n: nat, t: real): (rs: seq<seq<int>>)
    requires m.Valid() && n <= m.Height()
    ensures |rs| == n
  {
    seq(n, j requires 0 <= j < n => TrendRow(m, pv, j, t))
  }

  /** `differences(p_value)` as written, given what the p-value getter
      returns: no comparison means no getter call; otherwise a getter error
      or a missing p-value cell raises. */
  function DifferencesOf(ids: seq<string>, m: Matrix, pv: Result<Matrix>, t: real): (r: Result<map<string, seq<int>>>)
    requires m.Valid() && m.Height() == |ids|
    ensures r.Ok? <==> |ids| == 0 || m.width <= 1 || CoversTrends(m, pv, |ids|)
    ensures r.Ok? ==> forall k :: k in r.value <==> k in ids
    ensures r.Ok? ==> r.value == Dicts.Zip(ids, TrendRows(m, pv, |ids|, t))
    ensures r.Err? && pv.Err? ==> r.error == pv.error
  {
    if |ids| == 0 || m.width <= 1 then Ok(Dicts.Zip(ids, TrendRows(m, pv, |ids|, t)))
    else if pv.Err? then Err(pv.error)
    else if !CoversTrends(m, pv, |ids|) then Err(IndexError)
    else Ok(Dicts.Zip(ids, TrendRows(m, pv, |ids|, t)))
  }

  /** Where the loop of `differences` stops early: the getter failed, or
      the p-value cell it needs is missing. */
  lemma DifferencesStops(ids: seq<string>, m: Matrix, pv: Result<Matrix>, t: real, idx: nat, i: nat)
    requires m.Valid() && m.Height() == |ids| && idx < |ids| && 1 <= i < m.width
    requires pv.Ok? ==> pv.value.Valid() && (idx >= pv.value.Height() || i - 1 >= pv.value.width)
    ensures DifferencesOf(ids, m, pv, t) == Err(if pv.Err? then pv.error else IndexError)
  {
  }

  /** A loop of `differences` that reached the last identifier succeeds. */
  lemma DifferencesDone(ids: seq<string>, m: Matrix, pv: Result<Matrix>, t: real)
    requires m.Valid() && m.Height() == |ids|
    requires |ids| > 0 && m.width > 1 ==> CoversTrends(m, pv, |ids|)
    ensures DifferencesOf(ids, m, pv, t) == Ok(Dicts.Zip(ids, TrendRows(m, pv, |ids|, t)))
  {
  }

  /** One more row of trends. */
  lemma TrendRowsSnoc(m: Matrix, pv: Result<Matrix>, n: nat, t: real)
    requires m.Valid() && n < m.Height()
    ensures TrendRows(m, pv, n + 1, t) == TrendRows(m, pv, n, t) + [TrendRow(m, pv, n, t)]
  {
  }

  /** Each identifier gets one entry per consecutive pair of conditions,
      each in {-1, 0, +1}: 0 when the p-value exceeds the cutoff, the sign
      of the change otherwise. */
  lemma DifferencesMeaning(ids: seq<string>, m: Matrix, pv: Result<Matrix>, t: real, g: string, k: nat)
    requires m.Valid() && m.Height() == |ids| && m.width > 1
    requires DifferencesOf(ids, m, pv, t).Ok? && g in ids
    ensures var d := DifferencesOf(ids, m, pv, t).value[g];
      var j := Dicts.LastIndex(ids, g).value;
      |d| == m.width - 1 &&
      (k < |d| ==> (-1 <= d[k] <= 1 &&
        d[k] == if pv.value.rows[j][k] <= t then Sign(m.rows[j][k + 1] - m.rows[j][k]) else 0))
  {
    Dicts.ZipLookup(ids, TrendRows(m, pv, |ids|, t), g);
  }

  /** The column `differences` reads for the step from condition k to k+1
      holds, for k >= 1, the p-value between the first condition and
      condition k+1. */
  lemma DifferencesColumn(conds: seq<string>, k: nat)
    requires k + 1 < |conds|
    ensures PValueColumns(conds)[k] == conds[0] + " " + conds[k + 1] + " p-value"
  {
    PairsHead(|conds|, k);
  }

  /** Three conditions, the second and third measured apart (p = 0 in
      their column, the third): the step from the second to the third
      condition reads the second column, the p-value of the first and third
      condition (p = 1), and reports no change. */
  lemma DifferencesWrongPair()
    ensures DifferencesOf(["G"], Matrix([[0.0, 0.0, 5.0]], 3), Ok(Matrix([[1.0, 1.0, 0.0]], 3)), 0.005)
         == Ok(map["G" := [0, 0]])
  {
    var m := Matrix([[0.0, 0.0, 5.0]], 3);
    var p := Matrix([[1.0, 1.0, 0.0]], 3);
    assert CoversTrends(m, Ok(p), 1);
    var tr := Trends(m.rows[0], p.rows[0], 0.005);
    assert tr[0] == Step(0.0, 0.0, 1.0, 0.005) == 0;
    assert tr[1] == Step(0.0, 5.0, 1.0, 0.005) == 0;
    assert tr == [0, 0];
    assert TrendRows(m, Ok(p), 1, 0.005) == [[0, 0]];
    Dicts.ZipSnoc([], [], "G", [0, 0]);
  }

  /** On the same input the consecutive pairs' p-values report the rise
      from the second to the third condition. */
  lemma ConsecutiveRightPair()
    ensures ConsecutiveDifferencesOf(["G"], Matrix([[0.0, 0.0, 5.0]], 3), Matrix([[1.0, 1.0, 0.0]], 3), 0.005)
         == Ok(map["G" := [0, 1]])
  {
    var m := Matrix([[0.0, 0.0, 5.0]], 3);
    var p := Matrix([[1.0, 1.0, 0.0]], 3);
    PairsFromLength(0, 3);
    assert NextSlot(0, 3) == Slot(0, 0, 1, 3) == 0;
    assert NextSlot(1, 3) == Slot(0, 1, 2, 3) == 2;
    var tr := ConsecutiveRow(m.rows[0], p.rows[0], 3, 0.005);
    assert tr[0] == Step(0.0, 0.0, 1.0, 0.005) == 0;
    assert tr[1] == Step(0.0, 5.0, 0.0, 0.005) == 1;
    assert tr == [0, 1];
    Dicts.ZipSnoc([], [], "G", [0, 1]);
  }

  /** The p-value column of the pair (k, k+1). */
  function NextSlot(k: nat, n: nat): (j: nat)
    requires k + 1 < n
    ensures j < |Pairs(n)| && Pairs(n)[j] == (k, k + 1)
  {
    PairsFromSlot(0, k, k + 1, n);
    Slot(0, k, k + 1, n)
  }

  /** The trend entries with the p-value of each consecutive pair: for the
      step k -> k+1, the column labelled with conditions k and k+1. */
  function ConsecutiveRow(row: seq<real>, prow: seq<real>, n: nat, t: real): (ts: seq<int>)
    requires |row| == n && |prow| == |Pairs(n)|
    ensures |ts| == if n == 0 then 0 else n - 1
    ensures forall k :: 0 <= k < |ts| ==> ts[k] == Step(row[k], row[k + 1], prow[NextSlot(k, n)], t)
  {
    if n == 0 then []
    else seq(n - 1, k requires 0 <= k < n - 1 => Step(row[k], row[k + 1], prow[NextSlot(k, n)], t))
  }

  /** `differences` reading, for each consecutive pair of conditions, the
      p-value column that pair labels. */
  function ConsecutiveDifferencesOf(ids: seq<string>, m: Matrix, p: Matrix, t: real): (r: Result<map<string, seq<int>>>)
    requires m.Valid() && m.Height() == |ids| && p.Valid()
    ensures r.Ok? <==> p.Height() >= |ids| && p.width == |Pairs(m.width)|
    ensures r.Ok? ==> forall k :: k in r.value <==> k in ids
  {
    if p.Height() < |ids| || p.width != |Pairs(m.width)| then Err(IndexError)
    else Ok(Dicts.Zip(ids, seq(|ids|, j requires 0 <= j < |ids| => ConsecutiveRow(m.rows[j], p.rows[j], m.width, t))))
  }

  /** The corrected entry for the step k -> k+1 is judged by the p-value in
      the column labelled "c_k c_{k+1} p-value". */
  lemma ConsecutiveColumn(conds: seq<string>, k: nat)
    requires k + 1 < |conds|
    ensures NextSlot(k, |conds|) < |PValueColumns(conds)|
    ensures PValueColumns(conds)[NextSlot(k, |conds|)] == conds[k] + " " + conds[k + 1] + " p-value"
  {
    PValueColumnOf(conds, k, k + 1);
  }

  // ---------------------------------------------------------------------
  // to_reaction_dict

  /** A reaction is profiled when one of its genes is an identifier. */
  predicate Profiled(r: Metabolic.Reaction, ids: seq<string>) {
    exists g :: g in r.Genes() && g in ids
  }

  /** `{gene.id: gene_exp.get(gene.id, cutoff) for gene in rxn.genes}`. */
  function GeneValues(genes: set<string>, exp: map<string, real>, cutoff: real): (d: map<string, real>)
    ensures d.Keys == genes
    ensures forall g :: g in genes ==> d[g] == (if g in exp then exp[g] else cutoff)
  {
    map g | g in genes :: Dicts.Get(exp, g, cutoff)
  }

  /** The value `_map_gene_to_rxn(..., by="or2max_and2min")` gives a
      profiled reaction. */
  function ReactionValue(r: Metabolic.Reaction, ids: seq<string>, exp: map<string, real>): real
    requires Profiled(r, ids)
  {
    var gv := GeneValues(r.Genes(), exp, 0.0);
    Gpr.MapGeneToRxn(r.rule.value, "or2max_and2min", gv).value
  }

  /** What `to_reaction_dict` collects over the reactions `rs`, in order,
      a later reaction with the same id overwriting an earlier one. */
  function ReactionProfile(rs: seq<Metabolic.Reaction>, ids: seq<string>, exp: map<string, real>): (d: map<string, real>)
    ensures forall k :: k in d <==> exists i :: 0 <= i < |rs| && rs[i].id == k && Profiled(rs[i], ids)
  {
    if rs == [] then map[]
    else
      var n := |rs| - 1;
      var front := ReactionProfile(rs[..n], ids, exp);
      assert forall i :: 0 <= i < n ==> rs[..n][i] == rs[i];
      if Profiled(rs[n], ids) then front[rs[n].id := ReactionValue(rs[n], ids, exp)] else front
  }

  lemma {:induction false} ReactionProfileAt(rs: seq<Metabolic.Reaction>, ids: seq<string>, exp: map<string, real>, i: nat)
    requires Metabolic.UniqueIds(rs) && i < |rs| && Profiled(rs[i], ids)
    ensures ReactionProfile(rs, ids, exp)[rs[i].id] == ReactionValue(rs[i], ids, exp)
  {
    var n := |rs| - 1;
    var front := rs[..n];
    if i < n {
      assert Metabolic.UniqueIds(front) by {
        assert forall a :: 0 <= a < n ==> front[a] == rs[a];
      }
      assert front[i] == rs[i];
      ReactionProfileAt(front, ids, exp, i);
      assert rs[i].id != rs[n].id;
      var d := ReactionProfile(front, ids, exp);
      assert ReactionProfile(rs, ids, exp) == if Profiled(rs[n], ids) then d[rs[n].id := ReactionValue(rs[n], ids, exp)] else d;
    }
  }

  /** A profiled reaction's value follows the `or2max_and2min` policy
      over its genes, with 0.0 for each gene missing from the profile. */
  lemma ReactionProfileMeaning(rs: seq<Metabolic.Reaction>, ids: seq<string>, exp: map<string, real>, i: nat)
    requires Metabolic.UniqueIds(rs) && i < |rs| && Profiled(rs[i], ids)
    ensures rs[i].rule.Some?
    ensures ReactionProfile(rs, ids, exp)[rs[i].id]
         == Gpr.Activity(rs[i].rule.value, Gpr.Or2MaxAnd2Min, GeneValues(rs[i].Genes(), exp, 0.0))
  {
    ReactionProfileAt(rs, ids, exp, i);
    Gpr.MapGeneToRxnMeaning(rs[i].rule.value, "or2max_and2min", GeneValues(rs[i].Genes(), exp, 0.0));
  }

  // ---------------------------------------------------------------------
  // Data frames

  predicate IsPValueLabel(c: string) {
    Text.Contains(c, "p-value")
  }

  /** The positions of the column labels that do (`want`) or do not contain
      "p-value", in order. */
  function Where(cols: seq<string>, want: bool): (ps: seq<nat>)
    ensures forall k :: 0 <= k < |ps| ==> ps[k] < |cols|
    ensures forall k :: 0 <= k < |ps| ==> IsPValueLabel(cols[ps[k]]) == want
  {
    if cols == [] then []
    else
      var n := |cols| - 1;
      var front := Where(cols[..n], want);
      assert forall k :: 0 <= k < |front| ==> cols[..n][front[k]] == cols[front[k]];
      if IsPValueLabel(cols[n]) == want then front + [n] else front
  }

  /** `Where` picks every matching position, and in increasing order. */
  lemma {:induction false} WhereComplete(cols: seq<string>, want: bool)
    ensures forall i :: 0 <= i < |cols| && IsPValueLabel(cols[i]) == want ==> i in Where(cols, want)
    ensures forall k, l :: 0 <= k < l < |Where(cols, want)| ==> Where(cols, want)[k] < Where(cols, want)[l]
  {
    if cols != [] {
      var n := |cols| - 1;
      WhereComplete(cols[..n], want);
      assert forall i :: 0 <= i < n ==> cols[..n][i] == cols[i];
    }
  }

  function Labels(cols: seq<string>, ps: seq<nat>): (ls: seq<string>)
    requires forall k :: 0 <= k < |ps| ==> ps[k] < |cols|
    ensures |ls| == |ps| && forall k :: 0 <= k < |ps| ==> ls[k] == cols[ps[k]]
  {
    seq(|ps|, k requires 0 <= k < |ps| => cols[ps[k]])
  }

  /** The parts `from_data_frame` builds a profile from. */
  datatype Parts = Parts(identifiers: seq<string>, conditions: seq<string>, expression: Matrix, pValues: Option<Matrix>)

  /** `from_data_frame`: columns without "p-value" are the conditions, in
      order, the others the p-value matrix (none if there are none), the
      index the identifiers. */
  function SplitFrame(f: Frame): (p: Parts)
    requires f.Valid()
    ensures ShapeOk(|p.identifiers|, |p.conditions|, p.expression)
    ensures p.identifiers == f.index
    ensures forall k :: 0 <= k < |p.conditions| ==> !IsPValueLabel(p.conditions[k])
    ensures p.pValues.Some? ==> p.pValues.value.Valid() && p.pValues.value.Height() == |f.index|
    ensures p.pValues.None? <==> forall k :: 0 <= k < |f.columns| ==> !IsPValueLabel(f.columns[k])
  {
    var cs := Where(f.columns, false);
    var ps := Where(f.columns, true);
    WhereComplete(f.columns, true);
    assert ps != [] ==> IsPValueLabel(f.columns[ps[0]]);
    Parts(f.index, Labels(f.columns, cs), SelectColumns(f.values, cs),
          if ps == [] then None else Some(SelectColumns(f.values, ps)))
  }

  /** The `data_frame` property: the expression, followed by the p-value
      columns when there are p-values; numpy and pandas refuse arrays whose
      shapes do not fit. `p` is the stored p-value array, read as the
      corrected getter `PValuesOf` reads it; the code as written reads it
      through the `p_values` getter, which also raises on a zero p-value
      (`PValuesAsWritten`). */
  function FrameOf(ids: seq<string>, conds: seq<string>, m: Matrix, p: Option<Matrix>): (r: Result<Frame>)
    requires ShapeOk(|ids|, |conds|, m) && (p.Some? ==> p.value.Valid())
    ensures r.Ok? ==> r.value.Valid() && r.value.index == ids
    ensures r.Ok? <==> p.None? || (p.value.Height() == |ids| && p.value.width == |PValueColumns(conds)|)
  {
    if p.None? then Ok(Frame(ids, conds, m))
    else if p.value.Height() != |ids| || p.value.width != |PValueColumns(conds)| then Err(ValueError)
    else Ok(Frame(ids, conds + PValueColumns(conds), HConcat(m, p.value)))
  }

  lemma PValueLabel(a: string)
    ensures IsPValueLabel(a + " p-value")
  {
    var s := a + " p-value";
    assert s[|a| + 1..|a| + 1 + 7] == "p-value";
    assert Text.OccursAt(s, "p-value", |a| + 1);
  }

  lemma {:induction false} WhereSplit(conds: seq<string>, extra: seq<string>)
    requires forall k :: 0 <= k < |conds| ==> !IsPValueLabel(conds[k])
    requires forall k :: 0 <= k < |extra| ==> IsPValueLabel(extra[k])
    ensures Where(conds + extra, false) == Range(|conds|)
    ensures Where(conds + extra, true) == seq(|extra|, k requires 0 <= k < |extra| => |conds| + k)
    decreases |extra|
  {
    if extra == [] {
      assert conds + extra == conds;
      WhereAll(conds);
    } else {
      var n := |extra| - 1;
      var all := conds + extra;
      assert all[..|all| - 1] == conds + extra[..n];
      WhereSplit(conds, extra[..n]);
      assert all[|all| - 1] == extra[n];
      assert Where(all, false) == Where(conds + extra[..n], false);
      assert Where(all, true) == Where(conds + extra[..n], true) + [|conds| + n];
    }
  }

  lemma {:induction false} WhereAll(conds: seq<string>)
    requires forall k :: 0 <= k < |conds| ==> !IsPValueLabel(conds[k])
    ensures Where(conds, false) == Range(|conds|)
    ensures Where(conds, true) == []
  {
    if conds != [] {
      var n := |conds| - 1;
      assert forall k :: 0 <= k < n ==> conds[..n][k] == conds[k];
      WhereAll(conds[..n]);
      assert !IsPValueLabel(conds[n]);
      assert Where(conds, false) == Range(n) + [n];
    }
  }

  /** Importing the exported frame gives back the profile's parts, as long
      as no condition label contains "p-value". */
  lemma FrameRoundTrip(ids: seq<string>, conds: seq<string>, m: Matrix, p: Option<Matrix>)
    requires ShapeOk(|ids|, |conds|, m) && (p.Some? ==> p.value.Valid())
    requires forall k :: 0 <= k < |conds| ==> !IsPValueLabel(conds[k])
    requires FrameOf(ids, conds, m, p).Ok?
    requires p.Some? ==> p.value.width > 0
    ensures SplitFrame(FrameOf(ids, conds, m, p).value) == Parts(ids, conds, m, p)
  {
    if p.None? {
      WhereAll(conds);
      SelectAll(m);
      assert Labels(conds, Range(|conds|)) == conds;
    } else {
      RoundTripWithPValues(ids, conds, m, p.value);
    }
  }

  lemma RoundTripWithPValues(ids: seq<string>, conds: seq<string>, m: Matrix, p: Matrix)
    requires ShapeOk(|ids|, |conds|, m) && p.Valid()
    requires forall k :: 0 <= k < |conds| ==> !IsPValueLabel(conds[k])
    requires p.Height() == |ids| && p.width == |PValueColumns(conds)| && p.width > 0
    ensures SplitFrame(FrameOf(ids, conds, m, Some(p)).value) == Parts(ids, conds, m, Some(p))
  {
    var f := FrameOf(ids, conds, m, Some(p)).value;
    var pc := PValueColumns(conds);
    forall k | 0 <= k < |pc| ensures IsPValueLabel(pc[k]) {
      PValueLabel(conds[Pairs(|conds|)[k].0] + " " + conds[Pairs(|conds|)[k].1]);
    }
    WhereSplit(conds, pc);
    assert f.columns == conds + pc && f.values == HConcat(m, p);
    var ps := seq(|pc|, k requires 0 <= k < |pc| => |conds| + k);
    assert Where(f.columns, true) == ps != [];
    assert ps == seq(p.width, k requires 0 <= k < p.width => m.width + k);
    SelectLeft(m, p);
    SelectRight(m, p);
    assert Labels(f.columns, Range(|conds|)) == conds;
    assert SplitFrame(f).expression == m;
    assert SplitFrame(f).pValues == Some(p);
  }

  // ---------------------------------------------------------------------
  // from_csv(replicates=k)

  /** How many blocks `range(0, n, k)` starts. */
  function NumBlocks(n: nat, k: nat): nat
    requires k > 0
  {
    if n == 0 then 0 else if n <= k then 1 else 1 + NumBlocks(n - k, k)
  }

  /** `[s[i:i + k] for i in range(0, len(s), k)]`: consecutive blocks of
      `k` entries, the last one possibly shorter. */
  function Chunks<T>(s: seq<T>, k: nat): (cs: seq<seq<T>>)
    requires k > 0
    ensures |cs| == NumBlocks(|s|, k)
    ensures forall b :: 0 <= b < |cs| ==> 0 < |cs[b]| <= k
    decreases |s|
  {
    if s == [] then []
    else if |s| <= k then [s]
    else [s[..k]] + Chunks(s[k..], k)
  }

  /** The blocks are consecutive: together they are the whole sequence. */
  lemma {:induction false} ChunksCover<T>(s: seq<T>, k: nat)
    requires k > 0
    ensures Flatten(Chunks(s, k)) == s
    decreases |s|
  {
    if |s| > k {
      ChunksCover(s[k..], k);
      FlattenCons(s[..k], Chunks(s[k..], k));
      assert s == s[..k] + s[k..];
    }
  }

  function Flatten<T>(ss: seq<seq<T>>): seq<T> {
    if ss == [] then [] else ss[0] + Flatten(ss[1..])
  }

  lemma FlattenCons<T>(h: seq<T>, t: seq<seq<T>>)
    ensures Flatten([h] + t) == h + Flatten(t)
  {
    assert ([h] + t)[1..] == t;
  }

  /** Blocks of width one are the single entries. */
  lemma {:induction false} ChunksOne<T>(s: seq<T>)
    ensures Chunks(s, 1) == seq(|s|, i requires 0 <= i < |s| => [s[i]])
    decreases |s|
  {
    if |s| == 1 {
      assert s == [s[0]];
    } else if |s| > 1 {
      ChunksOne(s[1..]);
      assert s[..1] == [s[0]];
      var c := Chunks(s, 1);
      assert c == [s[..1]] + Chunks(s[1..], 1);
      assert forall i :: 1 <= i < |s| ==> c[i] == [s[1..][i - 1]] == [s[i]];
    }
  }

  /** The replicate collapse of `from_csv`: each block of `k` consecutive
      columns becomes one column holding the row-wise median, labelled with
      the common start of the block's labels. With no block there is no
      row either. */
  function Collapse(f: Frame, k: nat): (g: Frame)
    requires f.Valid() && k > 0
    ensures g.Valid() && |g.columns| == NumBlocks(|f.columns|, k)
    ensures |g.columns| > 0 ==> g.index == f.index
  {
    var nb := NumBlocks(|f.columns|, k);
    var labels := seq(nb, b requires 0 <= b < nb => Utils.CommonStart(Chunks(f.columns, k)[b]).value);
    var height := if nb == 0 then 0 else |f.index|;
    var rows := seq(height, i requires 0 <= i < height =>
      seq(nb, b requires 0 <= b < nb => Median(Chunks(f.values.rows[i], k)[b])));
    Frame(if nb == 0 then [] else f.index, labels, Matrix(rows, nb))
  }

  /** Each collapsed value lies between the smallest and the largest value
      of its block. */
  lemma CollapseBounds(f: Frame, k: nat, i: nat, b: nat)
    requires f.Valid() && k > 0 && b < NumBlocks(|f.columns|, k) && i < |f.index|
    ensures var blk := Chunks(f.values.rows[i], k)[b];
      Minimum(blk) <= Collapse(f, k).values.rows[i][b] <= Maximum(blk)
  {
    MedianBounds(Chunks(f.values.rows[i], k)[b]);
  }

  /** Each collapsed label is a prefix of every label in its block, and no
      longer common prefix exists. */
  lemma CollapseLabel(f: Frame, k: nat, b: nat, q: string)
    requires f.Valid() && k > 0 && b < NumBlocks(|f.columns|, k)
    ensures var blk := Chunks(f.columns, k)[b];
      forall j :: 0 <= j < |blk| ==> Utils.IsPrefix(Collapse(f, k).columns[b], blk[j])
    ensures var blk := Chunks(f.columns, k)[b];
      (forall j :: 0 <= j < |blk| ==> Utils.IsPrefix(q, blk[j])) ==> Utils.IsPrefix(q, Collapse(f, k).columns[b])
  {
    var blk := Chunks(f.columns, k)[b];
    if forall j :: 0 <= j < |blk| ==> Utils.IsPrefix(q, blk[j]) {
      Utils.CommonStartLongest(blk, q);
    }
  }

  /** Collapsing blocks of one column changes nothing. */
  lemma CollapseOne(f: Frame)
    requires f.Valid() && |f.columns| > 0
    ensures Collapse(f, 1) == f
  {
    var g := Collapse(f, 1);
    CollapseOneLabels(f);
    forall i | 0 <= i < |f.index| ensures g.values.rows[i] == f.values.rows[i] {
      CollapseOneRow(f, i);
    }
    assert g.values.rows == f.values.rows;
  }

  lemma CollapseOneLabels(f: Frame)
    requires f.Valid() && |f.columns| > 0
    ensures Collapse(f, 1).columns == f.columns
  {
    var g := Collapse(f, 1);
    ChunksOne(f.columns);
    forall b | 0 <= b < |f.columns| ensures g.columns[b] == f.columns[b] {
      Utils.CommonStartSingle(f.columns[b]);
    }
  }

  lemma CollapseOneRow(f: Frame, i: nat)
    requires f.Valid() && |f.columns| > 0 && i < |f.index|
    ensures Collapse(f, 1).values.rows[i] == f.values.rows[i]
  {
    var g := Collapse(f, 1);
    var row := f.values.rows[i];
    ChunksOne(row);
    forall b | 0 <= b < |row| ensures g.values.rows[i][b] == row[b] {
      MedianConstant([row[b]], row[b]);
    }
  }

  // ---------------------------------------------------------------------
  // The profile object

  class ExpressionProfile {
    const identifiers: seq<string>
    const conditions: seq<string>
    const expression: Matrix
    var pValues: Option<Matrix>

    predicate Valid()
      reads this
    {
      ShapeOk(|identifiers|, |conditions|, expression) && (pValues.Some? ==> pValues.value.Valid())
    }

    constructor (ids: seq<string>, conds: seq<string>, m: Matrix, p: Option<Matrix>)
      requires ShapeOk(|ids|, |conds|, m) && (p.Some? ==> p.value.Valid())
      ensures identifiers == ids && conditions == conds && expression == m && pValues == p
      ensures Valid()
    {
      identifiers, conditions, expression, pValues := ids, conds, m, p;
    }

    /** `ExpressionProfile(identifiers, conditions, expression, p_values)`:
        the dimension assertion, with the corrected shape check. */
    static method Create(ids: seq<string>, conds: seq<string>, m: Matrix, p: Option<Matrix>)
      returns (r: Result<ExpressionProfile>)
      requires p.Some? ==> p.value.Valid()
      ensures r.Ok? <==> ShapeOk(|ids|, |conds|, m)
      ensures r.Err? ==> r.error == AssertionError
      ensures r.Ok? ==> fresh(r.value) && r.value.Valid()
      ensures r.Ok? ==> (r.value.identifiers == ids && r.value.conditions == conds &&
                         r.value.expression == m && r.value.pValues == p)
    {
      if !ShapeOk(|ids|, |conds|, m) {
        return Err(AssertionError);
      }
      var e := new ExpressionProfile(ids, conds, m, p);
      return Ok(e);
    }

    /** `from_data_frame`. */
    static method FromDataFrame(f: Frame) returns (e: ExpressionProfile)
      requires f.Valid()
      ensures fresh(e) && e.Valid()
      ensures Parts(e.identifiers, e.conditions, e.expression, e.pValues) == SplitFrame(f)
    {
      var p := SplitFrame(f);
      e := new ExpressionProfile(p.identifiers, p.conditions, p.expression, p.pValues);
    }

    /** `from_csv(replicates=k)` on the table the file parses to; 0 stands
        for no replicates. */
    static method FromCsv(f: Frame, replicates: nat) returns (e: ExpressionProfile)
      requires f.Valid()
      ensures fresh(e) && e.Valid()
      ensures Parts(e.identifiers, e.conditions, e.expression, e.pValues)
           == SplitFrame(if replicates == 0 then f else Collapse(f, replicates))
    {
      var g := if replicates == 0 then f else Collapse(f, replicates);
      e := FromDataFrame(g);
    }

    function Item(key: Key): Result<Item>
      reads this
      requires Valid()
    {
      ItemAt(identifiers, conditions, expression, key)
    }

    function ToDict(c: Condition): Result<map<string, real>>
      reads this
      requires Valid()
    {
      ToDictOf(identifiers, conditions, expression, c)
    }

    function MinMax(c: Option<Condition>): Result<(real, real)>
      reads this
      requires Valid()
    {
      MinMaxOf(identifiers, conditions, expression, c)
    }

    function PValueLabels(): seq<string> {
      PValueColumns(conditions)
    }

    /** The `p_values` property. */
    function PValues(): Result<Matrix>
      reads this
    {
      PValuesOf(pValues)
    }

    /** The `data_frame` property, reading the stored p-values. */
    function DataFrame(): Result<Frame>
      reads this
      requires Valid()
    {
      FrameOf(identifiers, conditions, expression, pValues)
    }

    /** The `p_values` setter: an array must have one column per pair of
        conditions. */
    method SetPValues(p: Option<Matrix>) returns (r: Result<()>)
      requires Valid() && (p.Some? ==> p.value.Valid())
      modifies this
      ensures Valid()
      ensures r.Err? <==> p.Some? && p.value.width != |PValueColumns(conditions)|
      ensures r.Err? ==> r.error == ValueError && pValues == old(pValues)
      ensures r.Ok? ==> pValues == p
    {
      if p.Some? && p.value.width != |PValueColumns(conditions)| {
        return Err(ValueError);
      }
      pValues := p;
      return Ok(());
    }

    /** The `p_values` deleter. */
    method DeletePValues()
      requires Valid()
      modifies this
      ensures Valid() && pValues == None
    {
      pValues := None;
    }

    /** `differences(p_value)`: per identifier, the trend signs between
        consecutive conditions. */
    method Differences(t: real) returns (r: Result<map<string, seq<int>>>)
      requires Valid()
      ensures r == DifferencesOf(identifiers, expression, PValues(), t)
    {
      var m := expression;
      ghost var pv0 := PValues();
      var diff: map<string, seq<int>> := map[];
      var idx := 0;
      while idx < |identifiers|
        invariant 0 <= idx <= |identifiers|
        invariant m.width > 1 && idx > 0 ==> CoversTrends(m, pv0, idx)
        invariant diff == Dicts.Zip(identifiers[..idx], TrendRows(m, pv0, idx, t))
      {
        var iden := identifiers[idx];
        var row := DifferencesRow(idx, t);
        if row.Err? {
          return Err(row.error);
        }
        Dicts.ZipSnoc(identifiers[..idx], TrendRows(m, pv0, idx, t), iden, row.value);
        assert identifiers[..idx + 1] == identifiers[..idx] + [iden];
        TrendRowsSnoc(m, pv0, idx, t);
        diff := diff[iden := row.value];
        idx := idx + 1;
      }
      assert identifiers[..idx] == identifiers;
      DifferencesDone(identifiers, m, pv0, t);
      return Ok(diff);
    }

    /** The inner loop of `differences` for the identifier at `idx`: its
        trend row, or the error that stops the whole call. The getter is
        read once per comparison. */
    method DifferencesRow(idx: nat, t: real) returns (r: Result<seq<int>>)
      requires Valid() && idx < |identifiers|
      ensures r.Err? ==> DifferencesOf(identifiers, expression, PValues(), t) == Err(r.error)
      ensures r.Ok? ==> r.value == TrendRow(expression, PValues(), idx, t)
      ensures r.Ok? && |conditions| > 1 ==> CoversTrends(expression, PValues(), idx + 1)
    {
      var n := |conditions|;
      var m := expression;
      ghost var pv0 := PValues();
      var row: seq<int> := [];
      var i := 1;
      while i < n
        invariant 1 <= i <= (if n > 0 then n else 1) && |row| == i - 1
        invariant n > 1 && i > 1 ==> pv0.Ok? && pv0.value.Valid() &&
                                     pv0.value.Height() > idx && pv0.value.width >= i - 1
        invariant n > 1 && i > 1 ==> forall k :: 0 <= k < |row| ==>
          row[k] == Step(m.rows[idx][k], m.rows[idx][k + 1], pv0.value.rows[idx][k], t)
      {
        var startVal, endVal := m.rows[idx][i - 1], m.rows[idx][i];
        var pv := PValues();
        if pv.Err? {
          DifferencesStops(identifiers, m, pv, t, idx, i);
          return Err(pv.error);
        }
        if idx >= pv.value.Height() || i - 1 >= pv.value.width {
          DifferencesStops(identifiers, m, pv, t, idx, i);
          return Err(IndexError);
        }
        var pVal := pv.value.rows[idx][i - 1];
        var s := 0;
        if pVal <= t {
          if startVal < endVal {
            s := 1;
          } else if startVal > endVal {
            s := -1;
          }
        }
        row := row + [s];
        i := i + 1;
      }
      TrendRowDone(m, pv0, idx, t, row);
      return Ok(row);
    }

    /** `to_reaction_dict(condition, model, **kwargs)`: other arguments are
        ignored; the policy is `or2max_and2min` and missing genes count 0.0. */
    method ToReactionDict(c: Condition, rs: seq<Metabolic.Reaction>) returns (r: Result<map<string, real>>)
      requires Valid()
      ensures r.Err? <==> ToDict(c).Err?
      ensures r.Err? ==> r.error == ToDict(c).error
      ensures r.Ok? ==> r.value == ReactionProfile(rs, identifiers, ToDict(c).value)
    {
      var geneExp := ToDict(c);
      if geneExp.Err? {
        return Err(geneExp.error);
      }
      var rxnExp: map<string, real> := map[];
      var k := 0;
      while k < |rs|
        invariant 0 <= k <= |rs|
        invariant rxnExp == ReactionProfile(rs[..k], identifiers, geneExp.value)
      {
        var rxn := rs[k];
        assert rs[..k + 1][..k] == rs[..k];
        if exists g :: g in rxn.Genes() && g in identifiers {
          var gv := GeneValues(rxn.Genes(), geneExp.value, 0.0);
          rxnExp := rxnExp[rxn.id := Gpr.MapGeneToRxn(rxn.rule.value, "or2max_and2min", gv).value];
        }
        k := k + 1;
      }
      assert rs[..|rs|] == rs;
      return Ok(rxnExp);
    }
  }
}
