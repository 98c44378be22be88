/** `FluxConstraints`: reaction ids with a `[lower, upper]` pair each,
    built from measurements (value plus or minus deviation) or from explicit
    limits. Both repository generations hold the same container; it never
    changes after construction, so it is a value here. */
module Fluxes {
  import opened Wrappers
  import opened Tables
  import Dicts

  datatype FluxConstraints = FluxConstraints(reactionIds: seq<string>, limits: Matrix) {
    /** The constructor's shape assertion: one row of two per id. */
    predicate Valid() {
      limits.Valid() && limits.Height() == |reactionIds| && limits.width == 2
    }

    /** `_reaction_id_index`: each id to its position, a repeated id to
        its last one. */
    function IdIndex(): (d: map<string, nat>)
      ensures forall k :: k in d <==> k in reactionIds
      ensures forall k :: k in d ==> d[k] == Dicts.LastIndex(reactionIds, k).value
    {
      var d := Dicts.Zip(reactionIds, Range(|reactionIds|));
      assert forall k :: k in d ==> d[k] == Dicts.LastIndex(reactionIds, k).value by {
        forall k | k in d ensures d[k] == Dicts.LastIndex(reactionIds, k).value {
          Dicts.ZipLookup(reactionIds, Range(|reactionIds|), k);
        }
      }
      d
    }
  }

  /** `FluxConstraints(reaction_ids, limits)`: an AssertionError unless the
      limits have shape `(len(reaction_ids), 2)`. */
  function Create(ids: seq<string>, limits: Matrix): (r: Result<FluxConstraints>)
    requires limits.Valid()
    ensures r.Ok? <==> |limits.rows| == |ids| && limits.width == 2
    ensures r.Ok? ==> r.value.Valid() && r.value.reactionIds == ids && r.value.limits == limits
    ensures r.Err? ==> r.error == AssertionError
  {
    if |limits.rows| == |ids| && limits.width == 2 then Ok(FluxConstraints(ids, limits))
    else Err(AssertionError)
  }

  /** The keys `__getitem__` distinguishes. */
  datatype Key = Position(i: int) | Id(id: string) | OtherKey

  /** `fc[item]`: an int is a (possibly negative) row position, a string is
      looked up in the id index, anything else raises ValueError. */
  function GetItem(fc: FluxConstraints, key: Key): (r: Result<seq<real>>)
    requires fc.Valid()
    ensures key.Position? ==> (r.Ok? <==> -|fc.reactionIds| <= key.i < |fc.reactionIds|)
    ensures key.Id? ==> (r.Ok? <==> key.id in fc.reactionIds)
    ensures key.Id? && r.Ok? ==> r.value == fc.limits.rows[Dicts.LastIndex(fc.reactionIds, key.id).value]
    ensures key.Position? && r.Ok? ==>
      r.value == fc.limits.rows[if key.i < 0 then key.i + |fc.reactionIds| else key.i]
    ensures r.Ok? ==> |r.value| == 2
    ensures r.Err? ==> r.error == match key
      case Position(_) => IndexError
      case Id(_) => KeyError
      case OtherKey => ValueError
  {
    match key
    case Position(i) =>
      var p := PyIndex(i, |fc.limits.rows|);
      if p.Err? then Err(p.error) else Ok(fc.limits.rows[p.value])
    case Id(id) =>
      var index := fc.IdIndex();
      if id in index then Ok(fc.limits.rows[index[id]]) else Err(KeyError)
    case OtherKey => Err(ValueError)
  }

  /** `__iter__`: the ids in stored order, each of which, when the ids are
      distinct, indexes its own row. */
  lemma IterIndexes(fc: FluxConstraints, k: nat)
    requires fc.Valid() && k < |fc.reactionIds|
    requires forall i, j :: 0 <= i < j < |fc.reactionIds| ==> fc.reactionIds[i] != fc.reactionIds[j]
    ensures GetItem(fc, Id(fc.reactionIds[k])) == Ok(fc.limits.rows[k])
    ensures GetItem(fc, Position(k)) == GetItem(fc, Id(fc.reactionIds[k]))
  {
    var j := Dicts.LastIndex(fc.reactionIds, fc.reactionIds[k]).value;
    assert !(j < k) && !(k < j);
  }

  /** `__eq__`: `other` is `None` when it is not a `FluxConstraints`;
      otherwise the id lists must be equal and the limits equal entry by
      entry. */
  function Equal(a: FluxConstraints, other: Option<FluxConstraints>): (r: bool)
    requires a.Valid() && (other.Some? ==> other.value.Valid())
    ensures r <==> other == Some(a)
  {
    if other.None? then false
    else
      var b := other.value;
      var r := a.reactionIds == b.reactionIds &&
        forall i, j :: 0 <= i < |a.limits.rows| && 0 <= j < 2 ==> a.limits.rows[i][j] == b.limits.rows[i][j];
      assert r ==> a.limits.rows == b.limits.rows by {
        if r {
          forall i | 0 <= i < |a.limits.rows| ensures a.limits.rows[i] == b.limits.rows[i] {
            assert a.limits.rows[i] == [a.limits.rows[i][0], a.limits.rows[i][1]];
            assert b.limits.rows[i] == [b.limits.rows[i][0], b.limits.rows[i][1]];
          }
        }
      }
      r
  }

  /** The value of column `name` in row `i`: a missing label raises
      KeyError. */
  function Cell(f: Frame, name: string, i: nat): (r: Result<real>)
    requires f.Valid() && i < |f.index|
    ensures r.Ok? <==> name in f.columns
    ensures r.Err? ==> r.error == KeyError
  {
    var j := Dicts.LastIndex(f.columns, name);
    if j.None? then Err(KeyError) else Ok(f.values.rows[i][j.value])
  }

  /** The pair a row gives in one of the two modes: `[value - deviation,
      value + deviation]` or `[lower_limit, upper_limit]`. */
  function RowLimits(f: Frame, measurement: bool, i: nat): (r: Result<seq<real>>)
    requires f.Valid() && i < |f.index|
    ensures r.Ok? ==> |r.value| == 2
  {
    if measurement then
      var v, d := Cell(f, "value", i), Cell(f, "deviation", i);
      if v.Err? then Err(v.error) else if d.Err? then Err(d.error)
      else Ok([v.value - d.value, v.value + d.value])
    else
      var lo, hi := Cell(f, "lower_limit", i), Cell(f, "upper_limit", i);
      if lo.Err? then Err(lo.error) else if hi.Err? then Err(hi.error)
      else Ok([lo.value, hi.value])
  }

  /** The rows the row function gives for the first `n` rows, stopping at
      the first one that raises. */
  function LimitRows(f: Frame, measurement: bool, n: nat): (r: Result<seq<seq<real>>>)
    requires f.Valid() && n <= |f.index|
    ensures r.Ok? ==> |r.value| == n && forall i :: 0 <= i < n ==> Ok(r.value[i]) == RowLimits(f, measurement, i)
    ensures r.Err? ==> exists i :: 0 <= i < n && RowLimits(f, measurement, i) == Err(r.error)
  {
    if n == 0 then Ok([])
    else
      var front := LimitRows(f, measurement, n - 1);
      var last := RowLimits(f, measurement, n - 1);
      if front.Err? then front
      else if last.Err? then Err(last.error)
      else Ok(front.value + [last.value])
  }

  /** `from_data_frame(data_frame, data_type)` as its text intends: the
      index gives the ids; "measurement" and "constraints" give one pair
      per row from the named columns, whatever other columns the frame
      holds; any other type raises ValueError. */
  function FromDataFrame(f: Frame, dataType: string): (r: Result<FluxConstraints>)
    requires f.Valid()
    ensures dataType != "measurement" && dataType != "constraints" ==> r == Err(ValueError)
    ensures r.Ok? ==> r.value.Valid() && r.value.reactionIds == f.index
    ensures r.Ok? ==> forall i :: 0 <= i < |f.index| ==>
      Ok(r.value.limits.rows[i]) == RowLimits(f, dataType == "measurement", i)
    ensures (dataType == "measurement" || dataType == "constraints") && |f.index| == 0 ==> r.Ok?
  {
    if dataType != "measurement" && dataType != "constraints" then Err(ValueError)
    else if |f.index| == 0 then Create(f.index, Matrix([], 2))
    else
      var rows := LimitRows(f, dataType == "measurement", |f.index|);
      if rows.Err? then Err(rows.error) else Create(f.index, Matrix(rows.value, 2))
  }

  /** `from_data_frame` as written, under a pandas whose `apply` expands
      the lists the row function returns into columns only when they are
      as long as the frame is wide. A frame of any other width gives a
      one-dimensional array of lists, which the constructor's `(n, 2)`
      shape assertion refuses; on a frame without rows the row function is
      never applied and the frame's own `(0, columns)` shape reaches the
      constructor. */
  function FromDataFrameAsWritten(f: Frame, dataType: string): (r: Result<FluxConstraints>)
    requires f.Valid()
    ensures dataType != "measurement" && dataType != "constraints" ==> r == Err(ValueError)
    ensures r.Ok? ==> |f.columns| == 2
    ensures |f.columns| == 2 ==> r == FromDataFrame(f, dataType)
  {
    if dataType != "measurement" && dataType != "constraints" then Err(ValueError)
    else if |f.index| == 0 then Create(f.index, Matrix([], |f.columns|))
    else
      var rows := LimitRows(f, dataType == "measurement", |f.index|);
      if rows.Err? then Err(rows.error)
      else if |f.columns| == 2 then Create(f.index, Matrix(rows.value, 2))
      else Err(AssertionError)
  }

  /** A measurement frame with a third column: the code as written raises
      AssertionError, the intended reader gives the row's pair. */
  lemma ExtraColumnRefused()
    ensures var f := Frame(["R"], ["value", "deviation", "unit"], Matrix([[1.0, 0.5, 0.0]], 3));
      FromDataFrameAsWritten(f, "measurement") == Err(AssertionError) &&
      FromDataFrame(f, "measurement") == Ok(FluxConstraints(["R"], Matrix([[0.5, 1.5]], 2)))
  {
    var f := Frame(["R"], ["value", "deviation", "unit"], Matrix([[1.0, 0.5, 0.0]], 3));
    assert Dicts.LastIndex(f.columns, "value") == Some(0) by {
      assert f.columns[..1] == ["value"];
      assert f.columns[..2] == ["value", "deviation"];
    }
    assert Dicts.LastIndex(f.columns, "deviation") == Some(1) by {
      assert f.columns[..2] == ["value", "deviation"];
    }
    assert RowLimits(f, true, 0) == Ok([0.5, 1.5]);
    assert LimitRows(f, true, 0) == Ok([]);
    assert [] + [[0.5, 1.5]] == [[0.5, 1.5]];
  }

  /** `data_frame`: the limits under the columns `lower_limit` and
      `upper_limit`, indexed by the ids. */
  function DataFrame(fc: FluxConstraints): (f: Frame)
    requires fc.Valid()
    ensures f.Valid() && f.index == fc.reactionIds && f.values == fc.limits
  {
    Frame(fc.reactionIds, ["lower_limit", "upper_limit"], fc.limits)
  }

  /** Reading `data_frame` back as "constraints" gives the same
      constraints. */
  lemma RoundTrip(fc: FluxConstraints)
    requires fc.Valid()
    ensures FromDataFrame(DataFrame(fc), "constraints") == Ok(fc)
    ensures FromDataFrameAsWritten(DataFrame(fc), "constraints") == Ok(fc)
  {
    var f := DataFrame(fc);
    var cols := ["lower_limit", "upper_limit"];
    assert Dicts.LastIndex(cols, "upper_limit") == Some(1);
    assert Dicts.LastIndex(cols, "lower_limit") == Some(0) by {
      assert cols[..1] == ["lower_limit"];
    }
    if |fc.reactionIds| > 0 {
      var rows := LimitRows(f, false, |f.index|);
      forall i | 0 <= i < |f.index| ensures rows.value[i] == fc.limits.rows[i] {
        assert RowLimits(f, false, i) == Ok([fc.limits.rows[i][0], fc.limits.rows[i][1]]);
      }
      assert rows.value == fc.limits.rows;
    }
  }

  /** In "measurement" mode each row is centred on the value and spans the
      deviation both ways, so it is ordered whenever the deviation is not
      negative. */
  lemma MeasurementLimits(f: Frame, i: nat)
    requires f.Valid() && i < |f.index| && "value" in f.columns && "deviation" in f.columns
    ensures var v := f.values.rows[i][Dicts.LastIndex(f.columns, "value").value];
            var d := f.values.rows[i][Dicts.LastIndex(f.columns, "deviation").value];
            RowLimits(f, true, i) == Ok([v - d, v + d]) &&
            (d >= 0.0 ==> v - d <= v <= v + d)
  {
  }

  /** The intended reader reads a non-empty frame with the columns its
      mode needs completely, whatever other columns the frame holds; the
      code as written reads it exactly when the frame has no other
      column. */
  lemma FromDataFrameOk(f: Frame, measurement: bool)
    requires f.Valid() && |f.index| > 0
    requires measurement ==> "value" in f.columns && "deviation" in f.columns
    requires !measurement ==> "lower_limit" in f.columns && "upper_limit" in f.columns
    ensures FromDataFrame(f, if measurement then "measurement" else "constraints").Ok?
    ensures FromDataFrameAsWritten(f, if measurement then "measurement" else "constraints").Ok? <==> |f.columns| == 2
  {
    var rows := LimitRows(f, measurement, |f.index|);
    assert forall i :: 0 <= i < |f.index| ==> RowLimits(f, measurement, i).Ok?;
  }
}
