/** Python dictionaries built from sequences, where a later key overwrites
    an earlier one: `{k: v for k, v in zip(keys, values)}` and the
    `{iden: idx for idx, iden in enumerate(ids)}` index dictionaries. */
module Dicts {
  import opened Wrappers

  /** The position a label ends up with in an `enumerate` index
      dictionary: its last occurrence. */
  function LastIndex(keys: seq<string>, k: string): (r: Option<nat>)
    ensures r.Some? <==> k in keys
    ensures r.Some? ==> r.value < |keys| && keys[r.value] == k
    ensures r.Some? ==> forall j :: r.value < j < |keys| ==> keys[j] != k
  {
    if keys == [] then None
    else if keys[|keys| - 1] == k then Some(|keys| - 1)
    else
      var r := LastIndex(keys[..|keys| - 1], k);
      assert forall j :: 0 <= j < |keys| - 1 ==> keys[..|keys| - 1][j] == keys[j];
      assert k in keys[..|keys| - 1] ==> k in keys;
      assert k in keys ==> k in keys[..|keys| - 1] by {
        if k in keys {
          var j :| 0 <= j < |keys| && keys[j] == k;
          assert j < |keys| - 1;
          assert keys[..|keys| - 1][j] == k;
        }
      }
      r
  }

  /** `dict(zip(keys, values))`. */
  function Zip<V>(keys: seq<string>, values: seq<V>): (d: map<string, V>)
    requires |keys| == |values|
    ensures forall k :: k in d <==> k in keys
  {
    if keys == [] then map[]
    else
      var n := |keys| - 1;
      var front := Zip(keys[..n], values[..n]);
      assert forall k :: k in keys <==> k in keys[..n] || k == keys[n] by {
        assert keys == keys[..n] + [keys[n]];
      }
      front[keys[n] := values[n]]
  }

  /** A key of the zipped dictionary holds the value paired with its last
      occurrence. */
  lemma {:induction false} ZipLookup<V>(keys: seq<string>, values: seq<V>, k: string)
    requires |keys| == |values| && k in keys
    ensures Zip(keys, values)[k] == values[LastIndex(keys, k).value]
  {
    var n := |keys| - 1;
    if keys[n] != k {
      assert keys == keys[..n] + [keys[n]];
      assert k in keys[..n];
      ZipLookup(keys[..n], values[..n], k);
      var i := LastIndex(keys[..n], k).value;
      assert LastIndex(keys, k) == Some(i);
    }
  }

  /** Zipping one more pair updates the dictionary with it. */
  lemma ZipSnoc<V>(keys: seq<string>, values: seq<V>, k: string, v: V)
    requires |keys| == |values|
    ensures Zip(keys + [k], values + [v]) == Zip(keys, values)[k := v]
  {
    assert (keys + [k])[..|keys|] == keys;
    assert (values + [v])[..|values|] == values;
  }

  /** `d.get(k, default)`. */
  function Get<V>(d: map<string, V>, k: string, default: V): V {
    if k in d then d[k] else default
  }
}
