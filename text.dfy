/** Python string operations the modelled code relies on: `str.replace`
    (left-to-right, non-overlapping), `str.split()` on whitespace and
    `' '.join`. */
module Text {

  /** `p` occurs in `s` starting at index `i`. */
  predicate OccursAt(s: string, p: string, i: int) {
    0 <= i && i + |p| <= |s| && s[i..i + |p|] == p
  }

  /** Python's `p in s` for a non-empty `p`. */
  predicate Contains(s: string, p: string) {
    exists i :: 0 <= i <= |s| && OccursAt(s, p, i)
  }

  /** No occurrence of `p` in `a + b` starts inside `a` and ends inside `b`. */
  predicate NoStraddle(a: string, b: string, p: string) {
    forall i :: 0 <= i < |a| < i + |p| <= |a| + |b| ==> !OccursAt(a + b, p, i)
  }

  /** Python's `s.replace(p, r)` for a non-empty pattern: scans left to right
      and rewrites each non-overlapping occurrence. */
  function Replace(s: string, p: string, r: string): string
    requires |p| > 0
    decreases |s|
  {
    if |s| < |p| then s
    else if s[..|p|] == p then r + Replace(s[|p|..], p, r)
    else [s[0]] + Replace(s[1..], p, r)
  }

  /** A text without the pattern is returned unchanged. */
  lemma {:induction false} ReplaceAbsent(s: string, p: string, r: string)
    requires |p| > 0
    requires !Contains(s, p)
    ensures Replace(s, p, r) == s
    decreases |s|
  {
    if |s| >= |p| {
      if s[..|p|] != p {
        forall i | OccursAt(s[1..], p, i) ensures false {
          assert s[1..][i..i + |p|] == s[i + 1..i + 1 + |p|];
          assert OccursAt(s, p, i + 1);
        }
        ReplaceAbsent(s[1..], p, r);
      } else {
        ContainsPrefix(s, p);
        assert false;
      }
    }
  }

  lemma ContainsPrefix(s: string, p: string)
    requires |p| <= |s| && s[..|p|] == p
    ensures Contains(s, p)
  {
    assert OccursAt(s, p, 0);
  }

  lemma NoStraddleSuffix(a: string, b: string, p: string, k: nat)
    requires k <= |a|
    requires NoStraddle(a, b, p)
    ensures NoStraddle(a[k..], b, p)
  {
    assert a[k..] + b == (a + b)[k..];
    forall i | 0 <= i < |a[k..]| < i + |p| <= |a[k..]| + |b|
      ensures !OccursAt(a[k..] + b, p, i)
    {
      assert (a[k..] + b)[i..i + |p|] == (a + b)[i + k..i + k + |p|];
      assert !OccursAt(a + b, p, i + k);
    }
  }

  /** Replacing in a concatenation replaces in both halves separately, as
      long as no occurrence straddles the junction. */
  lemma {:induction false} ReplaceConcat(a: string, b: string, p: string, r: string)
    requires |p| > 0
    requires NoStraddle(a, b, p)
    ensures Replace(a + b, p, r) == Replace(a, p, r) + Replace(b, p, r)
    decreases |a|
  {
    var s := a + b;
    if a == [] {
      assert s == b;
    } else if |s| < |p| {
      ReplaceShort(a, p, r);
      ReplaceShort(b, p, r);
    } else if s[..|p|] == p {
      if |p| > |a| {
        assert OccursAt(s, p, 0);
        assert false;
      }
      assert a[..|p|] == p;
      assert s[|p|..] == a[|p|..] + b;
      NoStraddleSuffix(a, b, p, |p|);
      ReplaceConcat(a[|p|..], b, p, r);
    } else {
      assert s[1..] == a[1..] + b;
      NoStraddleSuffix(a, b, p, 1);
      ReplaceConcat(a[1..], b, p, r);
      if |a| < |p| {
        ReplaceShort(a, p, r);
        ReplaceShort(a[1..], p, r);
      } else {
        assert a[..|p|] == s[..|p|];
      }
    }
  }

  lemma ReplaceShort(s: string, p: string, r: string)
    requires 0 < |p| && |s| < |p|
    ensures Replace(s, p, r) == s
  {
  }

  /** Python's `str.isspace` on one character: the ASCII controls tab to
      carriage return and file to unit separator, the space, and the
      Unicode separators. */
  predicate IsSpace(c: char) {
    '\t' <= c <= '\r' || '\U{1c}' <= c <= ' ' || c == '\U{85}' || c == '\U{a0}' || c == '\U{1680}'
    || '\U{2000}' <= c <= '\U{200a}' || c == '\U{2028}' || c == '\U{2029}' || c == '\U{202f}'
    || c == '\U{205f}' || c == '\U{3000}'
  }

  predicate NoSpace(w: string) {
    forall i :: 0 <= i < |w| ==> !IsSpace(w[i])
  }

  /** A token of `str.split()`: non-empty, without whitespace. */
  predicate IsWord(w: string) {
    |w| > 0 && NoSpace(w)
  }

  /** Length of the leading run of non-space characters. */
  function WordLength(s: string): (n: nat)
    ensures n <= |s|
    ensures NoSpace(s[..n])
    ensures n < |s| ==> IsSpace(s[n])
  {
    if s == [] || IsSpace(s[0]) then 0
    else
      var m := WordLength(s[1..]);
      assert s[..1 + m] == [s[0]] + s[1..][..m];
      1 + m
  }

  /** Python's `s.split()`: the maximal runs of non-space characters. */
  function Split(s: string): (ws: seq<string>)
    ensures forall i :: 0 <= i < |ws| ==> IsWord(ws[i])
    decreases |s|
  {
    if s == [] then []
    else if IsSpace(s[0]) then Split(s[1..])
    else
      var n := WordLength(s);
      [s[..n]] + Split(s[n..])
  }

  /** Python's `sep.join(ws)`. */
  function Join(ws: seq<string>, sep: string): string {
    if |ws| == 0 then ""
    else if |ws| == 1 then ws[0]
    else ws[0] + sep + Join(ws[1..], sep)
  }

  lemma WordLengthOfWord(w: string, rest: string)
    requires NoSpace(w)
    requires rest == [] || IsSpace(rest[0])
    ensures WordLength(w + rest) == |w|
    decreases |w|
  {
    if w != [] {
      assert (w + rest)[1..] == w[1..] + rest;
      WordLengthOfWord(w[1..], rest);
    } else {
      assert w + rest == rest;
    }
  }

  /** Splitting words joined by single spaces gives the words back. */
  lemma {:induction false} SplitJoin(ws: seq<string>)
    requires forall i :: 0 <= i < |ws| ==> IsWord(ws[i])
    ensures Split(Join(ws, " ")) == ws
  {
    if |ws| == 1 {
      WordLengthOfWord(ws[0], []);
      assert ws[0] + [] == ws[0];
      assert ws[0][|ws[0]|..] == [];
    } else if |ws| > 1 {
      var rest := Join(ws[1..], " ");
      var s := ws[0] + " " + rest;
      assert s == ws[0] + (" " + rest);
      WordLengthOfWord(ws[0], " " + rest);
      assert s[..|ws[0]|] == ws[0];
      assert s[|ws[0]|..] == " " + rest;
      assert (" " + rest)[1..] == rest;
      SplitJoin(ws[1..]);
      assert [ws[0]] + ws[1..] == ws;
    }
  }
}
