/** Two-dimensional numeric arrays, the part of numpy/pandas behaviour the
    data containers use: shapes, Python-style positional indexing
    (negative indices count from the end), column selection and
    concatenation, minimum, maximum and median. */
module Tables {
  import opened Wrappers

  /** A numpy 2-D array: `rows` in order, each of length `width`. The width
      is kept explicitly so that a `(0, n)` array has shape `(0, n)`. */
  datatype Matrix = Matrix(rows: seq<seq<real>>, width: nat) {

    predicate Valid() {
      forall i :: 0 <= i < |rows| ==> |rows[i]| == width
    }

    function Height(): nat {
      |rows|
    }

    /** `m[:, j]`. */
    function Column(j: nat): (c: seq<real>)
      requires Valid() && j < width
      ensures |c| == |rows|
      ensures forall i :: 0 <= i < |rows| ==> c[i] == rows[i][j]
    {
      seq(|rows|, i requires 0 <= i < |rows| => rows[i][j])
    }

    /** `m[i, j]`. */
    function At(i: nat, j: nat): real
      requires Valid() && i < Height() && j < width
    {
      rows[i][j]
    }
  }

  /** Python's normalisation of a possibly negative index into a sequence
      of length `n`: `-n <= i < n` is accepted, anything else raises. */
  function PyIndex(i: int, n: nat): (r: Result<nat>)
    ensures r.Ok? <==> 0 <= i + n && i < n
    ensures r.Ok? ==> r.value < n && (r.value == i || r.value == i + n)
    ensures r.Err? ==> r.error == IndexError
  {
    if 0 <= i < n then Ok(i)
    else if 0 <= i + n && i < 0 then Ok(i + n)
    else Err(IndexError)
  }

  /** Python's clamping of a slice bound (step 1) into `[0, n]`. */
  function SliceBound(b: Option<int>, n: nat, dflt: nat): (k: nat)
    requires dflt <= n
    ensures k <= n
    ensures b.Some? && 0 <= b.value <= n ==> k == b.value
    ensures b.None? ==> k == dflt
  {
    match b
    case None => dflt
    case Some(v) =>
      if v < 0 then (if v + n < 0 then 0 else v + n)
      else if v > n then n
      else v
  }

  /** The positions a slice `lo:hi` selects from a length-`n` axis. */
  function SlicePositions(lo: Option<int>, hi: Option<int>, n: nat): (ps: seq<nat>)
    ensures forall k :: 0 <= k < |ps| ==> ps[k] < n
    ensures lo.None? && hi.None? ==> ps == Range(n)
  {
    var a := SliceBound(lo, n, 0);
    var b := SliceBound(hi, n, n);
    if a < b then seq(b - a, k requires 0 <= k < b - a => a + k) else []
  }

  /** `[0, 1, ..., n-1]`. */
  function Range(n: nat): (ps: seq<nat>)
    ensures |ps| == n
    ensures forall k :: 0 <= k < n ==> ps[k] == k
  {
    seq(n, k requires 0 <= k < n => k)
  }

  /** `m[:, js]`: the columns at positions `js`, in that order. */
  function SelectColumns(m: Matrix, js: seq<nat>): (r: Matrix)
    requires m.Valid()
    requires forall k :: 0 <= k < |js| ==> js[k] < m.width
    ensures r.Valid() && r.Height() == m.Height() && r.width == |js|
    ensures forall i, k :: 0 <= i < m.Height() && 0 <= k < |js| ==> r.rows[i][k] == m.rows[i][js[k]]
  {
    Matrix(seq(|m.rows|, i requires 0 <= i < |m.rows| =>
             seq(|js|, k requires 0 <= k < |js| => m.rows[i][js[k]])), |js|)
  }

  /** `np.concatenate((a, b), axis=1)`. */
  function HConcat(a: Matrix, b: Matrix): (r: Matrix)
    requires a.Valid() && b.Valid() && a.Height() == b.Height()
    ensures r.Valid() && r.Height() == a.Height() && r.width == a.width + b.width
    ensures forall i :: 0 <= i < a.Height() ==> r.rows[i] == a.rows[i] + b.rows[i]
  {
    Matrix(seq(|a.rows|, i requires 0 <= i < |a.rows| => a.rows[i] + b.rows[i]), a.width + b.width)
  }

  /** Selecting every column in order gives the array back. */
  lemma SelectAll(m: Matrix)
    requires m.Valid()
    ensures SelectColumns(m, Range(m.width)) == m
  {
    var r := SelectColumns(m, Range(m.width));
    assert forall i :: 0 <= i < |m.rows| ==> r.rows[i] == m.rows[i];
  }

  /** The first columns of a concatenation are the left array. */
  lemma SelectLeft(a: Matrix, b: Matrix)
    requires a.Valid() && b.Valid() && a.Height() == b.Height()
    ensures SelectColumns(HConcat(a, b), Range(a.width)) == a
  {
    var r := SelectColumns(HConcat(a, b), Range(a.width));
    forall i | 0 <= i < |a.rows| ensures r.rows[i] == a.rows[i] {
      assert HConcat(a, b).rows[i] == a.rows[i] + b.rows[i];
    }
  }

  /** The remaining columns of a concatenation are the right array. */
  lemma SelectRight(a: Matrix, b: Matrix)
    requires a.Valid() && b.Valid() && a.Height() == b.Height()
    ensures SelectColumns(HConcat(a, b), seq(b.width, k requires 0 <= k < b.width => a.width + k)) == b
  {
    var r := SelectColumns(HConcat(a, b), seq(b.width, k requires 0 <= k < b.width => a.width + k));
    forall i | 0 <= i < |a.rows| ensures r.rows[i] == b.rows[i] {
      assert HConcat(a, b).rows[i] == a.rows[i] + b.rows[i];
    }
  }

  /** All entries in row-major order (`np.amin`/`np.amax` look at these). */
  function Entries(rows: seq<seq<real>>): (s: seq<real>)
    ensures forall i, j :: 0 <= i < |rows| && 0 <= j < |rows[i]| ==> rows[i][j] in s
    ensures forall x :: x in s ==> exists i, j :: 0 <= i < |rows| && 0 <= j < |rows[i]| && rows[i][j] == x
  {
    if rows == [] then []
    else
      var rest := Entries(rows[1..]);
      assert forall i :: 1 <= i < |rows| ==> rows[i] == rows[1..][i - 1];
      rows[0] + rest
  }

  function Minimum(s: seq<real>): (m: real)
    requires |s| > 0
    ensures m in s
    ensures forall k :: 0 <= k < |s| ==> m <= s[k]
  {
    if |s| == 1 then s[0]
    else
      var rest := Minimum(s[1..]);
      assert forall k :: 1 <= k < |s| ==> s[k] == s[1..][k - 1];
      if s[0] <= rest then s[0] else rest
  }

  function Maximum(s: seq<real>): (m: real)
    requires |s| > 0
    ensures m in s
    ensures forall k :: 0 <= k < |s| ==> s[k] <= m
  {
    if |s| == 1 then s[0]
    else
      var rest := Maximum(s[1..]);
      assert forall k :: 1 <= k < |s| ==> s[k] == s[1..][k - 1];
      if s[0] >= rest then s[0] else rest
  }

  predicate Sorted(s: seq<real>) {
    forall i, j :: 0 <= i < j < |s| ==> s[i] <= s[j]
  }

  function Insert(x: real, s: seq<real>): (r: seq<real>)
    requires Sorted(s)
    ensures Sorted(r)
    ensures multiset(r) == multiset(s) + multiset{x}
    ensures |r| == |s| + 1
    ensures r[0] == if s == [] || x <= s[0] then x else s[0]
  {
    if s == [] then [x]
    else if x <= s[0] then [x] + s
    else
      var t := Insert(x, s[1..]);
      InsertCons(x, s, t);
      [s[0]] + t
  }

  /** Putting the head back in front of the insertion into the tail keeps
      the order and the contents. */
  lemma InsertCons(x: real, s: seq<real>, t: seq<real>)
    requires Sorted(s) && s != [] && x > s[0]
    requires Sorted(t) && |t| == |s| && multiset(t) == multiset(s[1..]) + multiset{x}
    requires t[0] == if |s| == 1 || x <= s[1] then x else s[1]
    ensures Sorted([s[0]] + t)
    ensures multiset([s[0]] + t) == multiset(s) + multiset{x}
  {
    assert s == [s[0]] + s[1..];
    InsertHead(s[0], t);
  }

  lemma InsertHead(h: real, t: seq<real>)
    requires Sorted(t) && (t == [] || h <= t[0])
    ensures Sorted([h] + t)
  {
  }

  /** Sorting, the first step of a median. */
  function Sort(s: seq<real>): (r: seq<real>)
    ensures Sorted(r)
    ensures multiset(r) == multiset(s)
    ensures |r| == |s|
  {
    if s == [] then []
    else
      assert s == [s[0]] + s[1..];
      Insert(s[0], Sort(s[1..]))
  }

  /** pandas' `median`: the middle of the sorted values, or the mean of the
      two middle ones for an even count. */
  function Median(s: seq<real>): (m: real)
    requires |s| > 0
  {
    Middle(Sort(s))
  }

  function Middle(t: seq<real>): real
    requires |t| > 0
  {
    var h := |t| / 2;
    if |t| % 2 == 1 then t[h] else (t[h - 1] + t[h]) / 2.0
  }

  lemma SortedBounds(s: seq<real>, t: seq<real>, k: nat)
    requires multiset(t) == multiset(s) && k < |t|
    ensures Minimum(s) <= t[k] <= Maximum(s)
    ensures t[k] in s
  {
    assert t[k] in multiset(t);
    assert t[k] in multiset(s);
  }

  lemma MiddleBounds(t: seq<real>, lo: real, hi: real)
    requires |t| > 0 && forall k :: 0 <= k < |t| ==> lo <= t[k] <= hi
    ensures lo <= Middle(t) <= hi
    ensures |t| % 2 == 1 ==> Middle(t) == t[|t| / 2]
  {
    var h := |t| / 2;
    if |t| % 2 == 0 {
      assert lo <= t[h - 1] <= hi && lo <= t[h] <= hi;
    }
  }

  /** The median lies between the smallest and the largest value, and is one
      of the values when their number is odd. */
  lemma MedianBounds(s: seq<real>)
    requires |s| > 0
    ensures Minimum(s) <= Median(s) <= Maximum(s)
    ensures |s| % 2 == 1 ==> Median(s) in s
  {
    var t := Sort(s);
    forall k | 0 <= k < |t|
      ensures Minimum(s) <= t[k] <= Maximum(s)
    {
      SortedBounds(s, t, k);
    }
    MiddleBounds(t, Minimum(s), Maximum(s));
    SortedBounds(s, t, |t| / 2);
  }

  /** A block of equal values has that value as its median. */
  lemma MedianConstant(s: seq<real>, v: real)
    requires |s| > 0
    requires forall k :: 0 <= k < |s| ==> s[k] == v
    ensures Median(s) == v
  {
    MedianBounds(s);
  }

  /** A pandas DataFrame: row labels, column labels and values. */
  datatype Frame = Frame(index: seq<string>, columns: seq<string>, values: Matrix) {
    predicate Valid() {
      values.Valid() && values.Height() == |index| && values.width == |columns|
    }
  }
}
