/** `all_same` and `get_common_start`, the helpers used to label a block of
    replicate columns by the longest common prefix of their headers. Both
    repository generations are modelled: the newer `all_same` is `all(...)`,
    the older one is `min` over the equality flags plus a `True` guard. */
module Utils {
  import opened Wrappers

  /** `all(elem == seq[0] for elem in seq)`: every element equals the
      first one, vacuously true for an empty sequence. */
  function AllSame<T(==)>(s: seq<T>): (r: bool)
    ensures r <==> forall i, j :: 0 <= i < |s| && 0 <= j < |s| ==> s[i] == s[j]
  {
    forall i | 0 <= i < |s| :: s[i] == s[0]
  }

  /** Python's `min` over a non-empty list of booleans (`False < True`). */
  function MinBool(bs: seq<bool>): (r: bool)
    requires |bs| > 0
    ensures r <==> forall i :: 0 <= i < |bs| ==> bs[i]
  {
    if |bs| == 1 then bs[0]
    else if !bs[0] then false
    else
      var m := MinBool(bs[1..]);
      assert forall i :: 1 <= i < |bs| ==> bs[i] == bs[1..][i - 1];
      m
  }

  /** The equality flags `[elem == seq[0] for elem in seq]`. */
  function EqualsFirst<T(==)>(s: seq<T>): (flags: seq<bool>)
    ensures |flags| == |s|
    ensures forall i :: 0 <= i < |s| ==> flags[i] == (s[i] == s[0])
  {
    seq(|s|, i requires 0 <= i < |s| => s[i] == s[0])
  }

  /** The older `all_same`: `min(flags + [True])`. */
  function AllSameByMin<T(==)>(s: seq<T>): (r: bool)
    ensures r == AllSame(s)
  {
    var flags := EqualsFirst(s) + [true];
    assert forall i :: 0 <= i < |s| ==> flags[i] == (s[i] == s[0]);
    MinBool(flags)
  }

  predicate IsPrefix<T(==)>(p: seq<T>, s: seq<T>) {
    |p| <= |s| && s[..|p|] == p
  }

  /** Number of tuples `zip(*seqs)` produces: the shortest length, or 0 for
      no arguments. */
  function MinLength<T>(seqs: seq<seq<T>>): (n: nat)
    ensures forall i :: 0 <= i < |seqs| ==> n <= |seqs[i]|
    ensures |seqs| > 0 ==> exists i :: 0 <= i < |seqs| && n == |seqs[i]|
  {
    if |seqs| == 0 then 0
    else if |seqs| == 1 then |seqs[0]|
    else
      var m := MinLength(seqs[1..]);
      assert forall i :: 1 <= i < |seqs| ==> seqs[i] == seqs[1..][i - 1];
      if |seqs[0]| <= m then |seqs[0]| else m
  }

  /** The `k`-th tuple of `zip(*seqs)`. */
  function ZipAt<T>(seqs: seq<seq<T>>, k: nat): (col: seq<T>)
    requires k < MinLength(seqs)
    ensures |col| == |seqs|
    ensures forall i :: 0 <= i < |seqs| ==> col[i] == seqs[i][k]
  {
    seq(|seqs|, i requires 0 <= i < |seqs| => seqs[i][k])
  }

  /** `m.index(False)`: the position of the first `false`. */
  function FirstFalse(m: seq<bool>): (k: nat)
    requires exists i :: 0 <= i < |m| && !m[i]
    ensures k < |m| && !m[k]
    ensures forall j :: 0 <= j < k ==> m[j]
  {
    if !m[0] then 0
    else
      assert exists i :: 0 <= i < |m[1..]| && !m[1..][i] by {
        var i :| 0 <= i < |m| && !m[i];
        assert i > 0 && !m[1..][i - 1];
      }
      var k := FirstFalse(m[1..]);
      assert forall j :: 1 <= j <= k ==> m[j] == m[1..][j - 1];
      1 + k
  }

  /** The newer flag list `[all_same(t) for t in zip(*seqs)] + [False]`. */
  function MatchFlags<T(==)>(seqs: seq<seq<T>>): (m: seq<bool>)
    ensures |m| == MinLength(seqs) + 1 && !m[MinLength(seqs)]
    ensures forall k :: 0 <= k < MinLength(seqs) ==> m[k] == AllSame(ZipAt(seqs, k))
  {
    seq(MinLength(seqs), k requires 0 <= k < MinLength(seqs) => AllSame(ZipAt(seqs, k))) + [false]
  }

  /** The older flag list, built with the `min`-based `all_same`. */
  function LegacyMatchFlags<T(==)>(seqs: seq<seq<T>>): (m: seq<bool>)
    ensures |m| == MinLength(seqs) + 1 && !m[MinLength(seqs)]
  {
    seq(MinLength(seqs), k requires 0 <= k < MinLength(seqs) => AllSameByMin(ZipAt(seqs, k))) + [false]
  }

  /** `get_common_start(*seqs)`: the longest common prefix of the arguments.
      With no argument `seq_list[0]` raises IndexError. The result is a
      prefix of every argument and cannot be extended: either it is as long
      as the shortest argument or the arguments disagree right after it. */
  function CommonStart<T(==)>(seqs: seq<seq<T>>): (r: Result<seq<T>>)
    ensures r.Err? <==> |seqs| == 0
    ensures r.Err? ==> r.error == IndexError
    ensures r.Ok? ==> forall i :: 0 <= i < |seqs| ==> IsPrefix(r.value, seqs[i])
    ensures r.Ok? ==> |r.value| <= MinLength(seqs)
    ensures r.Ok? && |r.value| < MinLength(seqs) ==> !AllSame(ZipAt(seqs, |r.value|))
  {
    var m := MatchFlags(seqs);
    var k := FirstFalse(m);
    if |seqs| == 0 then Err(IndexError)
    else
      var p := seqs[0][..k];
      assert forall i :: 0 <= i < |seqs| ==> IsPrefix(p, seqs[i]) by {
        forall i | 0 <= i < |seqs| ensures IsPrefix(p, seqs[i]) {
          forall j | 0 <= j < k ensures seqs[i][j] == p[j] {
            assert m[j] && AllSame(ZipAt(seqs, j));
            assert ZipAt(seqs, j)[i] == ZipAt(seqs, j)[0];
          }
        }
      }
      Ok(p)
  }

  /** The older `get_common_start`: same shape, older `all_same`. */
  function LegacyCommonStart<T(==)>(seqs: seq<seq<T>>): (r: Result<seq<T>>)
    ensures r == CommonStart(seqs)
  {
    var m := LegacyMatchFlags(seqs);
    assert m == MatchFlags(seqs);
    if |seqs| == 0 then Err(IndexError) else Ok(seqs[0][..FirstFalse(m)])
  }

  /** Every common prefix of the arguments is a prefix of the result. */
  lemma CommonStartLongest<T>(seqs: seq<seq<T>>, q: seq<T>)
    requires |seqs| > 0
    requires forall i :: 0 <= i < |seqs| ==> IsPrefix(q, seqs[i])
    ensures IsPrefix(q, CommonStart(seqs).value)
  {
    var r := CommonStart(seqs).value;
    if |q| > |r| {
      var k := |r|;
      assert |q| <= MinLength(seqs) by {
        var i :| 0 <= i < |seqs| && MinLength(seqs) == |seqs[i]|;
      }
      var col := ZipAt(seqs, k);
      forall i, j | 0 <= i < |seqs| && 0 <= j < |seqs| ensures col[i] == col[j] {
        assert seqs[i][..|q|] == q && seqs[j][..|q|] == q;
        assert seqs[i][k] == q[k] == seqs[j][k];
      }
      assert false;
    }
    forall j | 0 <= j < |q| ensures r[j] == q[j] {
      assert seqs[0][..|q|] == q;
    }
  }

  /** When the arguments agree wherever `zip` pairs them, the guard makes
      the result exactly as long as the shortest argument. */
  lemma CommonStartAllAgree<T>(seqs: seq<seq<T>>)
    requires |seqs| > 0
    requires forall k :: 0 <= k < MinLength(seqs) ==> AllSame(ZipAt(seqs, k))
    ensures |CommonStart(seqs).value| == MinLength(seqs)
  {
  }

  /** A single argument is returned whole. */
  lemma CommonStartSingle<T>(a: seq<T>)
    ensures CommonStart([a]) == Ok(a)
  {
    var seqs := [a];
    forall k | 0 <= k < MinLength(seqs) ensures AllSame(ZipAt(seqs, k)) {
      assert |ZipAt(seqs, k)| == 1;
    }
    CommonStartAllAgree(seqs);
    assert a[..|a|] == a;
  }
}
