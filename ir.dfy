/** Placeholder documents and the intermediate representation (builder/src/ir.rs): `FwHTML`
    with the variables and components it uses, the template rule, and the loading of the
    template and component maps. */
module Ir {
  import opened Wrappers
  import opened Strings
  import opened Placeholders
  import FsTrees

  /** `{{ name }}`: the variable regex, names over word characters and '-'. */
  const Variable: Pattern := Pattern("{{ ", true)

  /** `{{ components/name }}`: the component regex. */
  const Component: Pattern := Pattern("{{ components/", true)

  const Doctype: string := "<!DOCTYPE html>"

  /** `analyzer::used_variables`: the names of the variables the text uses, sorted, each once. */
  function UsedVariables(data: string): (r: seq<string>)
    ensures StrictlySorted(r)
    ensures forall n :: n in r <==> Referenced(data, Variable, n)
  {
    SortedNames(data, Variable)
  }

  /** `analyzer::used_components`: the names of the components the text uses, sorted, each
      once. */
  function UsedComponents(data: string): (r: seq<string>)
    ensures StrictlySorted(r)
    ensures forall n :: n in r <==> Referenced(data, Component, n)
  {
    SortedNames(data, Component)
  }

  /** A component placeholder is never read as a variable: no variable name holds '/', and no
      variable placeholder starts where a component placeholder does. */
  lemma ComponentsAreNotVariables(data: string, i: nat, c: string, n: string)
    ensures forall v :: v in UsedVariables(data) ==> '/' !in v
    ensures Occurs(data, i, Component, c) ==> !Occurs(data, i, Variable, n)
  {
    forall v | v in UsedVariables(data) ensures '/' !in v {
      var j: nat :| Occurs(data, j, Variable, v);
    }
    if Occurs(data, i, Component, c) {
      ComponentIsNotVariable(data, i, Variable, Component, c, n);
    }
  }

  /** A document: its raw text and the placeholders found in it. (The class names `new` also
      collects are not part of this model.) */
  datatype FwHTML = FwHTML(data: string, usedVariables: seq<string>, usedComponents: seq<string>)

  /** `DocumentContainsErrors` is never produced: the check that would raise it is disabled. */
  datatype FwHTMLError = NotATemplate

  /** The document as `new` builds it from its text. */
  function Analyzed(data: string): FwHTML
  {
    FwHTML(data, UsedVariables(data), UsedComponents(data))
  }

  /** The fields of a document are the ones its text gives. */
  predicate Consistent(h: FwHTML)
  {
    h == Analyzed(h.data)
  }

  /** `FwHTML::new`: always succeeds, keeps the text, and records exactly the placeholders in
      it. */
  function New(data: string): (r: Result<FwHTML, FwHTMLError>)
    ensures r.Ok? && r.value.data == data && Consistent(r.value)
  {
    Ok(Analyzed(data))
  }

  /** `FwHTML::template`: a document that must start with the HTML doctype. */
  function Template(data: string): (r: Result<FwHTML, FwHTMLError>)
    ensures r.Err? <==> !StartsWith(data, Doctype)
    ensures r.Err? ==> r.error == NotATemplate
    ensures r.Ok? ==> r == New(data)
  {
    if !StartsWith(data, Doctype) then Err(NotATemplate) else New(data)
  }

  /** `FwHTML::output`: the document's text. */
  function Output(h: FwHTML): string
  {
    h.data
  }

  // ---------------------------------------------------------------------------------------------
  // The intermediate representation

  /** The two renderings of an instant the builder uses: RFC 3339 (section 5.6) and `%Y-%m-%d`. */
  datatype DateTime = DateTime(rfc3339: string, date: string)

  /** `IR`: templates and components by name, the parsed page tree, and the two library
      conversions the builder calls, given as functions: Markdown to HTML, and seconds since the
      epoch to an instant (none when out of range). The configuration, stylesheets and static
      assets are not part of this model. */
  datatype IR = IR(
    templates: map<string, FwHTML>,
    components: map<string, FwHTML>,
    pages: FsTrees.ParsedFsTree,
    markdownToHtml: string -> string,
    fromTimestamp: int -> Option<DateTime>)

  /** `InvalidTemplateHTML(file, err)`; the other loading errors are not part of this model. */
  datatype SourceFormatError = InvalidTemplateHTML(file: string, error: FwHTMLError)

  predicate DistinctKeys(data: seq<(string, string)>)
  {
    forall i, j :: 0 <= i < j < |data| ==> data[i].0 != data[j].0
  }

  /** The names of the first `i` files. */
  ghost function NamesUpTo(data: seq<(string, string)>, i: nat): set<string>
    requires i <= |data|
  {
    set j | 0 <= j < i :: data[j].0
  }

  lemma NamesStep(data: seq<(string, string)>, i: nat)
    requires i < |data|
    ensures NamesUpTo(data, i + 1) == NamesUpTo(data, i) + {data[i].0}
  {
    assert data[i].0 in NamesUpTo(data, i + 1);
  }

  /** Storing file `i` keeps the files before it, when no two files share a name. */
  lemma StoreStep(loaded: map<string, FwHTML>, data: seq<(string, string)>, i: nat, h: FwHTML)
    requires i < |data| && DistinctKeys(data) && h.data == data[i].1
    requires forall j :: 0 <= j < i ==> data[j].0 in loaded && loaded[data[j].0].data == data[j].1
    ensures forall j :: 0 <= j < i + 1 ==>
              data[j].0 in loaded[data[i].0 := h] && loaded[data[i].0 := h][data[j].0].data == data[j].1
  {
  }

  /** Every file before `i` is stored under its own name with its own text. */
  ghost predicate Stored(data: seq<(string, string)>, i: nat, loaded: map<string, FwHTML>)
    requires i <= |data|
  {
    && loaded.Keys == NamesUpTo(data, i)
    && (forall k :: k in loaded ==> Consistent(loaded[k]))
    && (DistinctKeys(data) ==>
          forall j :: 0 <= j < i ==> data[j].0 in loaded && loaded[data[j].0].data == data[j].1)
  }

  lemma StoredStep(data: seq<(string, string)>, i: nat, loaded: map<string, FwHTML>, h: FwHTML)
    requires i < |data| && Stored(data, i, loaded)
    requires h.data == data[i].1 && Consistent(h)
    ensures Stored(data, i + 1, loaded[data[i].0 := h])
  {
    NamesStep(data, i);
    if DistinctKeys(data) { StoreStep(loaded, data, i, h); }
  }

  // ---------------------------------------------------------------------------------------------
  // load_templates

  /** The loop of `IR::load_templates` from file `i` on, over the files in the order the map is
      iterated, `loaded` holding what the files before it gave. */
  function TemplatesFrom(data: seq<(string, string)>, i: nat, loaded: map<string, FwHTML>)
    : Result<map<string, FwHTML>, SourceFormatError>
    requires i <= |data|
    decreases |data| - i
  {
    if i == |data| then Ok(loaded)
    else
      match Template(data[i].1)
      case Err(e) => Err(InvalidTemplateHTML(data[i].0, e))
      case Ok(h) => TemplatesFrom(data, i + 1, loaded[data[i].0 := h])
  }

  /** `IR::load_templates`. */
  method LoadTemplates(data: seq<(string, string)>) returns (r: Result<map<string, FwHTML>, SourceFormatError>)
    ensures r == TemplatesFrom(data, 0, map[])
  {
    var loaded: map<string, FwHTML> := map[];
    var i := 0;
    while i < |data|
      invariant 0 <= i <= |data|
      invariant TemplatesFrom(data, 0, map[]) == TemplatesFrom(data, i, loaded)
    {
      var (k, v) := data[i];
      match Template(v) {
        case Ok(h) =>
          loaded := loaded[k := h];
        case Err(e) =>
          return Err(InvalidTemplateHTML(k, e));
      }
      i := i + 1;
    }
    return Ok(loaded);
  }

  /** Past a template, loading goes on with it stored. */
  lemma TemplatesFromStep(data: seq<(string, string)>, i: nat, loaded: map<string, FwHTML>)
    requires i < |data|
    ensures !StartsWith(data[i].1, Doctype) ==>
              TemplatesFrom(data, i, loaded) == Err(InvalidTemplateHTML(data[i].0, NotATemplate))
    ensures StartsWith(data[i].1, Doctype) ==>
              TemplatesFrom(data, i, loaded) == TemplatesFrom(data, i + 1, loaded[data[i].0 := New(data[i].1).value])
  {
  }

  /** Loading fails exactly when some file is no template. */
  lemma {:induction false} TemplatesFromFails(data: seq<(string, string)>, i: nat, loaded: map<string, FwHTML>)
    requires i <= |data|
    ensures TemplatesFrom(data, i, loaded).Err? <==> exists b :: i <= b < |data| && !StartsWith(data[b].1, Doctype)
    decreases |data| - i
  {
    if i < |data| {
      TemplatesFromStep(data, i, loaded);
      if StartsWith(data[i].1, Doctype) {
        TemplatesFromFails(data, i + 1, loaded[data[i].0 := New(data[i].1).value]);
        if exists b :: i <= b < |data| && !StartsWith(data[b].1, Doctype) {
          var b :| i <= b < |data| && !StartsWith(data[b].1, Doctype);
          assert i + 1 <= b;
        }
      }
    }
  }

  /** A failed loading names the first file that is no template. */
  lemma {:induction false} TemplatesFromFirstError(data: seq<(string, string)>, i: nat, loaded: map<string, FwHTML>)
    requires i <= |data|
    ensures TemplatesFrom(data, i, loaded).Err? ==>
              exists b ::
                && i <= b < |data|
                && !StartsWith(data[b].1, Doctype)
                && (forall j :: i <= j < b ==> StartsWith(data[j].1, Doctype))
                && TemplatesFrom(data, i, loaded).error == InvalidTemplateHTML(data[b].0, NotATemplate)
    decreases |data| - i
  {
    if i < |data| {
      TemplatesFromStep(data, i, loaded);
      var r := TemplatesFrom(data, i, loaded);
      if !StartsWith(data[i].1, Doctype) {
        assert r.error == InvalidTemplateHTML(data[i].0, NotATemplate);
      } else {
        TemplatesFromFirstError(data, i + 1, loaded[data[i].0 := New(data[i].1).value]);
        if r.Err? {
          var b :| && i + 1 <= b < |data|
                   && !StartsWith(data[b].1, Doctype)
                   && (forall j :: i + 1 <= j < b ==> StartsWith(data[j].1, Doctype))
                   && r.error == InvalidTemplateHTML(data[b].0, NotATemplate);
          assert forall j :: i <= j < b ==> StartsWith(data[j].1, Doctype);
        }
      }
    }
  }

  /** Every stored document starts with the doctype. */
  ghost predicate AllTemplates(loaded: map<string, FwHTML>)
  {
    forall k :: k in loaded ==> StartsWith(loaded[k].data, Doctype)
  }

  lemma AllTemplatesStep(loaded: map<string, FwHTML>, k: string, h: FwHTML)
    requires AllTemplates(loaded) && StartsWith(h.data, Doctype)
    ensures AllTemplates(loaded[k := h])
  {
  }

  /** A successful template loading stores what component loading stores. */
  lemma {:induction false} TemplatesAsComponents(data: seq<(string, string)>, i: nat, loaded: map<string, FwHTML>)
    requires i <= |data|
    ensures TemplatesFrom(data, i, loaded).Ok? ==> TemplatesFrom(data, i, loaded).value == ComponentsFrom(data, i, loaded)
    decreases |data| - i
  {
    if i < |data| {
      TemplatesFromStep(data, i, loaded);
      if StartsWith(data[i].1, Doctype) {
        TemplatesAsComponents(data, i + 1, loaded[data[i].0 := New(data[i].1).value]);
      }
    }
  }

  /** A successful template loading stores only documents that start with the doctype. */
  lemma {:induction false} TemplatesFromAllTemplates(data: seq<(string, string)>, i: nat, loaded: map<string, FwHTML>)
    requires i <= |data| && AllTemplates(loaded)
    ensures TemplatesFrom(data, i, loaded).Ok? ==> AllTemplates(TemplatesFrom(data, i, loaded).value)
    decreases |data| - i
  {
    if i < |data| {
      TemplatesFromStep(data, i, loaded);
      if StartsWith(data[i].1, Doctype) {
        var h := New(data[i].1).value;
        AllTemplatesStep(loaded, data[i].0, h);
        TemplatesFromAllTemplates(data, i + 1, loaded[data[i].0 := h]);
      }
    }
  }

  /** `load_templates` fails exactly when some file does not start with the doctype, naming the
      first such file; otherwise every file is a template stored under its name, analysed from
      its own text. */
  lemma LoadTemplatesMeaning(data: seq<(string, string)>)
    ensures TemplatesFrom(data, 0, map[]).Err? <==> exists i :: 0 <= i < |data| && !StartsWith(data[i].1, Doctype)
    ensures TemplatesFrom(data, 0, map[]).Err? ==>
              exists i ::
                && 0 <= i < |data|
                && !StartsWith(data[i].1, Doctype)
                && (forall j :: 0 <= j < i ==> StartsWith(data[j].1, Doctype))
                && TemplatesFrom(data, 0, map[]).error == InvalidTemplateHTML(data[i].0, NotATemplate)
    ensures
      var r := TemplatesFrom(data, 0, map[]);
      r.Ok? ==>
        && r.value.Keys == (set i | 0 <= i < |data| :: data[i].0)
        && (forall k :: k in r.value ==> StartsWith(r.value[k].data, Doctype) && Consistent(r.value[k]))
        && (DistinctKeys(data) ==> forall i :: 0 <= i < |data| ==> r.value[data[i].0].data == data[i].1)
  {
    TemplatesFromFails(data, 0, map[]);
    TemplatesFromFirstError(data, 0, map[]);
    TemplatesAsComponents(data, 0, map[]);
    TemplatesFromAllTemplates(data, 0, map[]);
    ComponentsFromLoaded(data, 0, map[]);
  }

  // ---------------------------------------------------------------------------------------------
  // load_components

  /** The loop of `IR::load_components` from file `i` on: `new` cannot fail, so every file is
      stored. */
  function ComponentsFrom(data: seq<(string, string)>, i: nat, loaded: map<string, FwHTML>): map<string, FwHTML>
    requires i <= |data|
    decreases |data| - i
  {
    if i == |data| then loaded
    else ComponentsFrom(data, i + 1, loaded[data[i].0 := New(data[i].1).value])
  }

  /** `IR::load_components`. */
  method LoadComponents(data: seq<(string, string)>) returns (r: Result<map<string, FwHTML>, SourceFormatError>)
    ensures r == Ok(ComponentsFrom(data, 0, map[]))
  {
    var loaded: map<string, FwHTML> := map[];
    var i := 0;
    while i < |data|
      invariant 0 <= i <= |data|
      invariant ComponentsFrom(data, 0, map[]) == ComponentsFrom(data, i, loaded)
    {
      var (k, v) := data[i];
      loaded := loaded[k := New(v).value];
      i := i + 1;
    }
    return Ok(loaded);
  }

  lemma {:induction false} ComponentsFromLoaded(data: seq<(string, string)>, i: nat, loaded: map<string, FwHTML>)
    requires i <= |data| && Stored(data, i, loaded)
    ensures Stored(data, |data|, ComponentsFrom(data, i, loaded))
    decreases |data| - i
  {
    if i < |data| {
      StoredStep(data, i, loaded, New(data[i].1).value);
      ComponentsFromLoaded(data, i + 1, loaded[data[i].0 := New(data[i].1).value]);
    }
  }

  /** Every file becomes a component stored under its name, analysed from its own text. */
  lemma LoadComponentsMeaning(data: seq<(string, string)>)
    ensures
      var m := ComponentsFrom(data, 0, map[]);
      && m.Keys == (set i | 0 <= i < |data| :: data[i].0)
      && (forall k :: k in m ==> Consistent(m[k]))
      && (DistinctKeys(data) ==> forall i :: 0 <= i < |data| ==> m[data[i].0].data == data[i].1)
  {
    ComponentsFromLoaded(data, 0, map[]);
  }
}
