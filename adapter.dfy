/** Identifier translation between KEGG, MetaNetX and BiGG as the model
    adapters use it. The MetaNetX tables (`all2mnx`, `mnx2bigg` and the
    chemical-property table) are parameters, passed as maps. */
module Adapter {
  import opened Wrappers
  import Text

  // ------------------------------------------------------------ clean_bigg_id

  /** `re.sub(r"bigg:|dsh", "", s)`: scanning left to right, at each
      position the first alternative that matches is dropped; the text left
      behind is not scanned again. */
  function CleanBiggId(s: string): string
    decreases |s|
  {
    if s == [] then []
    else if 5 <= |s| && s[..5] == "bigg:" then CleanBiggId(s[5..])
    else if 3 <= |s| && s[..3] == "dsh" then CleanBiggId(s[3..])
    else [s[0]] + CleanBiggId(s[1..])
  }

  /** Cleaning only deletes, and an id without either pattern is kept. */
  lemma {:induction false} CleanBiggIdDeletes(s: string)
    ensures |CleanBiggId(s)| <= |s|
    ensures !Text.Contains(s, "bigg:") && !Text.Contains(s, "dsh") ==> CleanBiggId(s) == s
    decreases |s|
  {
    if s != [] {
      if 5 <= |s| && s[..5] == "bigg:" {
        CleanBiggIdDeletes(s[5..]);
        Text.ContainsPrefix(s, "bigg:");
      } else if 3 <= |s| && s[..3] == "dsh" {
        CleanBiggIdDeletes(s[3..]);
        Text.ContainsPrefix(s, "dsh");
      } else {
        CleanBiggIdDeletes(s[1..]);
        ContainsTail(s, "bigg:");
        ContainsTail(s, "dsh");
      }
    }
  }

  lemma ContainsTail(s: string, p: string)
    requires s != []
    ensures Text.Contains(s[1..], p) ==> Text.Contains(s, p)
  {
    if Text.Contains(s[1..], p) {
      var i :| 0 <= i <= |s[1..]| && Text.OccursAt(s[1..], p, i);
      assert s[1..][i..i + |p|] == s[i + 1..i + 1 + |p|];
      assert Text.OccursAt(s, p, i + 1);
    }
  }

  /** Without a `dsh` in it, cleaning an id is `str.replace('bigg:', '')`,
      the stripping the equation mapping uses. */
  lemma {:induction false} CleanIsReplace(s: string)
    requires !Text.Contains(s, "dsh")
    ensures CleanBiggId(s) == Text.Replace(s, "bigg:", "")
    decreases |s|
  {
    if s != [] {
      if 3 <= |s| && s[..3] == "dsh" {
        Text.ContainsPrefix(s, "dsh");
      }
      if 5 <= |s| && s[..5] == "bigg:" {
        ContainsDrop(s, "dsh", 5);
        CleanIsReplace(s[5..]);
      } else {
        ContainsTail(s, "dsh");
        CleanIsReplace(s[1..]);
      }
    }
  }

  lemma ContainsDrop(s: string, p: string, k: nat)
    requires k <= |s|
    ensures Text.Contains(s[k..], p) ==> Text.Contains(s, p)
  {
    if Text.Contains(s[k..], p) {
      var i :| 0 <= i <= |s[k..]| && Text.OccursAt(s[k..], p, i);
      assert s[k..][i..i + |p|] == s[i + k..i + k + |p|];
      assert Text.OccursAt(s, p, i + k);
    }
  }

  /** One pass: `dbigg:sh` loses its `bigg:` and leaves a `dsh` behind. */
  lemma CleanBiggIdOnePass()
    ensures CleanBiggId("bigg:atp") == "atp"
    ensures CleanBiggId("dbigg:sh") == "dsh"
    ensures CleanBiggId("dsh") == ""
  {
    CleanPlain("atp");
    assert "bigg:atp"[..5] == "bigg:" && "bigg:atp"[5..] == "atp";
    CleanPlain("sh");
    var s := "dbigg:sh";
    assert s[..3][1] != "dsh"[1];
    assert s[..5][1] != "bigg:"[1];
    assert s[1..] == "bigg:sh";
    assert s[1..][..5] == "bigg:" && s[1..][5..] == "sh";
    assert "dsh"[..3] == "dsh" && "dsh"[3..] == "";
  }

  /** An id made of letters other than `b` and `d` is left alone. */
  lemma {:induction false} CleanPlain(s: string)
    requires forall i :: 0 <= i < |s| ==> s[i] != 'b' && s[i] != 'd'
    ensures CleanBiggId(s) == s
    decreases |s|
  {
    if s != [] {
      assert s[0] != "bigg:"[0] && s[0] != "dsh"[0];
      if 5 <= |s| {
        assert s[..5][0] != "bigg:"[0];
      }
      if 3 <= |s| {
        assert s[..3][0] != "dsh"[0];
      }
      CleanPlain(s[1..]);
    }
  }

  // --------------------------------------------------- get_existing_metabolite

  /** `get_existing_metabolite(mnx_id, model, compartment)`: the model
      metabolite's id, found first under the cleaned BiGG id and then under
      the MetaNetX id, each with the compartment suffix; a missing or empty
      MetaNetX id finds nothing. */
  function ExistingMetabolite(mnxId: Option<string>, metabolites: seq<string>, compartment: string,
                              mnx2bigg: map<string, string>): (r: Option<string>)
    ensures r.Some? ==> r.value in metabolites
    ensures r.None? <==> (mnxId.None? || mnxId.value == "" ||
                          ((mnxId.value !in mnx2bigg || CleanBiggId(mnx2bigg[mnxId.value]) + compartment !in metabolites) &&
                           mnxId.value + compartment !in metabolites))
    ensures r.Some? && mnxId.value in mnx2bigg && CleanBiggId(mnx2bigg[mnxId.value]) + compartment in metabolites ==>
      r.value == CleanBiggId(mnx2bigg[mnxId.value]) + compartment
    ensures r.Some? ==> (mnxId.value in mnx2bigg && r.value == CleanBiggId(mnx2bigg[mnxId.value]) + compartment) ||
                        r.value == mnxId.value + compartment
  {
    if mnxId.None? || mnxId.value == "" then None
    else
      var id := mnxId.value;
      if id in mnx2bigg && CleanBiggId(mnx2bigg[id]) + compartment in metabolites then Some(CleanBiggId(mnx2bigg[id]) + compartment)
      else if id + compartment in metabolites then Some(id + compartment)
      else None
  }

  // ---------------------------------------------------------- contains_carbon

  /** A metabolite as the adapters see it: its formula (`None` or `""` when
      unknown) and the element symbols parsed from it. */
  datatype Metabolite = Metabolite(id: string, formula: Option<string>, elements: set<string>)

  /** `contains_carbon`: `ValueError` without a formula, otherwise whether
      carbon is among the elements. */
  function ContainsCarbon(m: Metabolite): (r: Result<bool>)
    ensures r.Err? <==> m.formula.None? || m.formula.value == ""
    ensures r.Err? ==> r.error == ValueError
    ensures r.Ok? ==> (r.value <==> "C" in m.elements)
  {
    if m.formula.None? || m.formula.value == "" then Err(ValueError)
    else Ok("C" in m.elements)
  }

  // ------------------------------------------------------ find_metabolite_info

  /** `met_id[:-2]`: the id without its two-character compartment suffix
      (the empty string for a shorter id). */
  function WithoutCompartment(metId: string): string {
    if |metId| < 2 then "" else metId[..|metId| - 2]
  }

  /** Stripping the suffix undoes appending a two-character compartment. */
  lemma WithoutCompartmentInverse(base: string, compartment: string)
    requires |compartment| == 2
    ensures WithoutCompartment(base + compartment) == base
  {
    assert (base + compartment)[..|base|] == base;
  }

  /** `find_metabolite_info`: the chemical-property row of the id without
      its compartment, looked up directly and then through the
      `bigg:`-prefixed MetaNetX mapping; a missing key finds nothing. */
  function FindMetaboliteInfo<R>(metId: string, chemProp: map<string, R>, all2mnx: map<string, string>): (r: Option<R>)
    ensures var id := WithoutCompartment(metId);
      (id in chemProp ==> r == Some(chemProp[id])) &&
      (id !in chemProp ==>
        (r.Some? <==> "bigg:" + id in all2mnx && all2mnx["bigg:" + id] in chemProp) &&
        (r.Some? ==> r.value == chemProp[all2mnx["bigg:" + id]]))
  {
    var id := WithoutCompartment(metId);
    if id in chemProp then Some(chemProp[id])
    else if "bigg:" + id in all2mnx && all2mnx["bigg:" + id] in chemProp then Some(chemProp[all2mnx["bigg:" + id]])
    else None
  }

  // ------------------------------------------------------ map_equation_to_bigg

  predicate IsAsciiLetter(c: char) {
    ('A' <= c <= 'Z') || ('a' <= c <= 'z')
  }

  predicate IsDigit(c: char) {
    '0' <= c <= '9'
  }

  /** `re.match("^[A-Za-z][A-Za-z0-9]*$", el)`. */
  predicate IsIdentifier(el: string) {
    |el| > 0 && IsAsciiLetter(el[0]) && forall i :: 1 <= i < |el| ==> IsAsciiLetter(el[i]) || IsDigit(el[i])
  }

  /** What one token of the equation becomes. Operators and numbers stay
      as they are; an identifier is read as a KEGG id and replaced by its
      BiGG id with `bigg:` stripped, or by its MetaNetX id when that has no
      BiGG entry, or kept when it has no MetaNetX entry; a non-empty
      compartment is then appended. */
  function MapToken(el: string, compartment: Option<string>, all2mnx: map<string, string>, mnx2bigg: map<string, string>): string {
    if !IsIdentifier(el) then el
    else
      var mapped :=
        if "kegg:" + el !in all2mnx then el
        else if all2mnx["kegg:" + el] !in mnx2bigg then all2mnx["kegg:" + el]
        else Text.Replace(mnx2bigg[all2mnx["kegg:" + el]], "bigg:", "");
      if compartment.Some? && compartment.value != "" then mapped + compartment.value else mapped
  }

  function MappedEquation(equation: string, compartment: Option<string>, all2mnx: map<string, string>, mnx2bigg: map<string, string>): string {
    var tokens := Text.Split(equation);
    Text.Join(seq(|tokens|, i requires 0 <= i < |tokens| => MapToken(tokens[i], compartment, all2mnx, mnx2bigg)), " ")
  }

  /** The tables give whitespace-free, non-empty ids. */
  predicate WordTables(all2mnx: map<string, string>, mnx2bigg: map<string, string>) {
    (forall k :: k in all2mnx ==> Text.IsWord(all2mnx[k])) &&
    (forall k :: k in mnx2bigg ==> Text.IsWord(Text.Replace(mnx2bigg[k], "bigg:", "")))
  }

  lemma NoSpaceConcat(a: string, b: string)
    requires Text.NoSpace(a) && Text.NoSpace(b)
    ensures Text.NoSpace(a + b)
  {
    forall i | 0 <= i < |a + b|
      ensures !Text.IsSpace((a + b)[i])
    {
      if i >= |a| {
        assert (a + b)[i] == b[i - |a|];
      }
    }
  }

  lemma {:induction false} MapTokenIsWord(el: string, compartment: Option<string>, all2mnx: map<string, string>, mnx2bigg: map<string, string>)
    requires Text.IsWord(el) && WordTables(all2mnx, mnx2bigg)
    requires compartment.Some? ==> Text.NoSpace(compartment.value)
    ensures Text.IsWord(MapToken(el, compartment, all2mnx, mnx2bigg))
  {
    if IsIdentifier(el) && compartment.Some? && compartment.value != "" {
      var mapped :=
        if "kegg:" + el !in all2mnx then el
        else if all2mnx["kegg:" + el] !in mnx2bigg then all2mnx["kegg:" + el]
        else Text.Replace(mnx2bigg[all2mnx["kegg:" + el]], "bigg:", "");
      NoSpaceConcat(mapped, compartment.value);
    }
  }

  /** The mapped equation has as many whitespace-separated tokens as the
      equation, each the mapping of the token at the same position, as
      long as the tables and the compartment hold no whitespace. */
  lemma MappedEquationTokens(equation: string, compartment: Option<string>, all2mnx: map<string, string>, mnx2bigg: map<string, string>)
    requires WordTables(all2mnx, mnx2bigg)
    requires compartment.Some? ==> Text.NoSpace(compartment.value)
    ensures var tokens := Text.Split(equation);
      var out := Text.Split(MappedEquation(equation, compartment, all2mnx, mnx2bigg));
      |out| == |tokens| && forall i :: 0 <= i < |tokens| ==> out[i] == MapToken(tokens[i], compartment, all2mnx, mnx2bigg)
  {
    var tokens := Text.Split(equation);
    var mapped := seq(|tokens|, i requires 0 <= i < |tokens| => MapToken(tokens[i], compartment, all2mnx, mnx2bigg));
    forall i | 0 <= i < |tokens|
      ensures Text.IsWord(mapped[i])
    {
      MapTokenIsWord(tokens[i], compartment, all2mnx, mnx2bigg);
    }
    Text.SplitJoin(mapped);
  }

  /** Operators and numbers are never rewritten; an identifier with a
      BiGG name becomes that name, one with only a MetaNetX id that id, and
      one unknown to KEGG stays, each followed by the compartment. */
  lemma MapTokenPassThrough(el: string, compartment: Option<string>, all2mnx: map<string, string>, mnx2bigg: map<string, string>)
    ensures !IsIdentifier(el) ==> MapToken(el, compartment, all2mnx, mnx2bigg) == el
    ensures IsIdentifier(el) && compartment.Some? && "kegg:" + el in all2mnx && all2mnx["kegg:" + el] in mnx2bigg ==>
      MapToken(el, compartment, all2mnx, mnx2bigg) == Text.Replace(mnx2bigg[all2mnx["kegg:" + el]], "bigg:", "") + compartment.value
    ensures IsIdentifier(el) && compartment.Some? && "kegg:" + el in all2mnx && all2mnx["kegg:" + el] !in mnx2bigg ==>
      MapToken(el, compartment, all2mnx, mnx2bigg) == all2mnx["kegg:" + el] + compartment.value
    ensures IsIdentifier(el) && compartment.Some? && "kegg:" + el !in all2mnx ==>
      MapToken(el, compartment, all2mnx, mnx2bigg) == el + compartment.value
    ensures IsIdentifier(el) && compartment.Some? && compartment.value != "" ==>
      var t := MapToken(el, compartment, all2mnx, mnx2bigg);
      |t| >= |compartment.value| && t[|t| - |compartment.value|..] == compartment.value
  {
  }

  /** `map_equation_to_bigg`: the tokens are mapped one by one and the
      results joined with single spaces. */
  method MapEquationToBigg(equation: string, compartment: Option<string>, all2mnx: map<string, string>, mnx2bigg: map<string, string>)
    returns (r: string)
    ensures r == MappedEquation(equation, compartment, all2mnx, mnx2bigg)
  {
    var tokens := Text.Split(equation);
    var result: seq<string> := [];
    for i := 0 to |tokens|
      invariant |result| == i
      invariant forall j :: 0 <= j < i ==> result[j] == MapToken(tokens[j], compartment, all2mnx, mnx2bigg)
    {
      var el := tokens[i];
      if !IsIdentifier(el) {
        result := result + [el];
      } else {
        if "kegg:" + el in all2mnx {
          el := all2mnx["kegg:" + el];
          if el in mnx2bigg {
            el := Text.Replace(mnx2bigg[el], "bigg:", "");
          }
        }
        if compartment.Some? && compartment.value != "" {
          el := el + compartment.value;
        }
        result := result + [el];
      }
    }
    assert result == seq(|tokens|, i requires 0 <= i < |tokens| => MapToken(tokens[i], compartment, all2mnx, mnx2bigg));
    r := Text.Join(result, " ");
  }
}
