/** The older document scanner of subrepo/src/ir.rs. Its placeholders are `{{ name }}` and
    `{{ components/name }}` with names over word characters only (no '-'), and it reports every
    match in textual order, duplicates included, where the builder's scanner sorts and
    deduplicates. */
module SubrepoIr {
  import opened Wrappers
  import opened Strings
  import opened Placeholders
  import Ir

  /** `{{ name }}` with `\w*` names. */
  const Variable: Pattern := Pattern("{{ ", false)

  /** `{{ components/name }}` with `\w*` names. */
  const Component: Pattern := Pattern("{{ components/", false)

  /** `extract_regex_captures`: the captured names of all matches, left to right. */
  function Captured(data: string, p: Pattern): (r: seq<string>)
    requires WellFormed(p)
    ensures forall n :: n in r <==> Referenced(data, p, n)
  {
    ScanNames(data, p);
    Names(Scan(data, 0, p))
  }

  /** `analyzer::used_variables`. */
  function UsedVariables(data: string): (r: seq<string>)
    ensures forall n :: n in r <==> Referenced(data, Variable, n)
  {
    Captured(data, Variable)
  }

  /** `analyzer::used_components`. */
  function UsedComponents(data: string): (r: seq<string>)
    ensures forall n :: n in r <==> Referenced(data, Component, n)
  {
    Captured(data, Component)
  }

  /** The names come from the matches in the order they stand in the text, one per match: every
      placeholder in the text is reported, so a name used twice is reported twice. */
  lemma CapturedInOrder(data: string, p: Pattern)
    requires WellFormed(p)
    ensures
      var cs := Scan(data, 0, p);
      && Captured(data, p) == Names(cs)
      && (forall k :: 0 <= k < |cs| ==> Occurs(data, cs[k].at, p, cs[k].name))
      && (forall a, b :: 0 <= a < b < |cs| ==> cs[a].at < cs[b].at)
      && (forall i: nat, n :: Occurs(data, i, p, n) ==> Capture(i, n) in cs)
  {
    var cs := Scan(data, 0, p);
    ScanSound(data, 0, p);
    forall k | 0 <= k < |cs| ensures Occurs(data, cs[k].at, p, cs[k].name) {
      assert cs[k] in cs;
    }
    forall i: nat, n | Occurs(data, i, p, n) ensures Capture(i, n) in cs {
      ScanComplete(data, 0, p, i, n);
    }
  }

  /** A hyphenated placeholder, which the builder's scanner reads as a variable, is no match
      here at all. */
  lemma HyphenatedNotReported(data: string, i: nat, n: string)
    requires Occurs(data, i, Ir.Variable, n) && '-' in n
    ensures forall c :: c in Scan(data, 0, Variable) ==> c.at != i
  {
    ScanSound(data, 0, Variable);
    forall c | c in Scan(data, 0, Variable) ensures c.at != i {
      if c.at == i {
        HyphenatedNameNotMatched(data, i, Variable, n, c.name);
      }
    }
  }

  /** A placeholder name without '-' reads the same under both scanners. */
  lemma OccursWithoutHyphen(data: string, i: nat, p: Pattern, n: string)
    requires !p.hyphen
    ensures Occurs(data, i, p, n) <==> Occurs(data, i, Pattern(p.open, true), n) && '-' !in n
  {
    if Occurs(data, i, Pattern(p.open, true), n) && '-' !in n {
      forall k | 0 <= k < |n| ensures IsNameChar(p, n[k]) {
        assert n[k] in n;
      }
    }
  }

  /** The names reported here are exactly the builder's names without '-'. */
  lemma SameNamesAsBuilder(data: string)
    ensures forall n :: n in UsedVariables(data) <==> n in Ir.UsedVariables(data) && '-' !in n
    ensures forall n :: n in UsedComponents(data) <==> n in Ir.UsedComponents(data) && '-' !in n
  {
    forall n ensures n in UsedVariables(data) <==> n in Ir.UsedVariables(data) && '-' !in n {
      if Referenced(data, Variable, n) {
        var i: nat :| Occurs(data, i, Variable, n);
        OccursWithoutHyphen(data, i, Variable, n);
      }
      if Referenced(data, Ir.Variable, n) && '-' !in n {
        var i: nat :| Occurs(data, i, Ir.Variable, n);
        OccursWithoutHyphen(data, i, Variable, n);
      }
    }
    forall n ensures n in UsedComponents(data) <==> n in Ir.UsedComponents(data) && '-' !in n {
      if Referenced(data, Component, n) {
        var i: nat :| Occurs(data, i, Component, n);
        OccursWithoutHyphen(data, i, Component, n);
      }
      if Referenced(data, Ir.Component, n) && '-' !in n {
        var i: nat :| Occurs(data, i, Ir.Component, n);
        OccursWithoutHyphen(data, i, Component, n);
      }
    }
  }

  /** Under either variable pattern, `{{ a }}{{ a }}` holds two matches. */
  lemma TwoMatches(p: Pattern)
    requires p.open == "{{ "
    ensures Scan("{{ a }}{{ a }}", 0, p) == [Capture(0, "a"), Capture(7, "a")]
  {
    var s := "{{ a }}{{ a }}";
    assert Token(p, "a") == "{{ a }}";
    assert IsName(p, "a");
    assert Occurs(s, 7, p, "a") by { assert s[7..14] == "{{ a }}"; }
    MatchAtComplete(s, 7, p, "a");
    assert Scan(s, 7, p) == [Capture(7, "a")];
    assert Occurs(s, 0, p, "a") by { assert s[0..7] == "{{ a }}"; }
    MatchAtComplete(s, 0, p, "a");
  }

  /** `{{ a }}{{ a }}` uses `a` twice here, and once for the builder. */
  lemma DuplicatesKept()
    ensures UsedVariables("{{ a }}{{ a }}") == ["a", "a"]
    ensures Ir.UsedVariables("{{ a }}{{ a }}") == ["a"]
  {
    TwoMatches(Variable);
    TwoMatches(Ir.Variable);
    assert Names([Capture(0, "a"), Capture(7, "a")]) == ["a", "a"];
    assert SortDedup(["a", "a"]) == ["a"] by {
      assert ["a", "a"][1..] == ["a"] && ["a"][1..] == [];
    }
  }

  // ---------------------------------------------------------------------------------------------
  // FwHTML

  datatype FwHTML = FwHTML(data: string, usedVariables: seq<string>, usedComponents: seq<string>)

  /** `DocumentContainsErrors` is never produced: the check that would raise it is disabled. */
  datatype FwHTMLError = NotATemplate

  /** `FwHTML::new`: always succeeds and records every placeholder of its text. */
  function New(data: string): (r: Result<FwHTML, FwHTMLError>)
    ensures r.Ok? && r.value.data == data
    ensures forall n :: n in r.value.usedVariables <==> Referenced(data, Variable, n)
    ensures forall n :: n in r.value.usedComponents <==> Referenced(data, Component, n)
  {
    Ok(FwHTML(data, UsedVariables(data), UsedComponents(data)))
  }

  /** `FwHTML::template`: a document that must start with the HTML doctype. */
  function Template(data: string): (r: Result<FwHTML, FwHTMLError>)
    ensures r.Err? <==> !StartsWith(data, Ir.Doctype)
    ensures r.Err? ==> r.error == NotATemplate
    ensures r.Ok? ==> r == New(data)
  {
    if !StartsWith(data, Ir.Doctype) then Err(NotATemplate) else New(data)
  }
}
