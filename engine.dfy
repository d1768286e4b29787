/** The builder as it runs (builder/src/builder.rs and `FwHTML::resolved` in builder/src/ir.rs):
    the loops of `generate`, `resolved` and `execute_with_template_override`, each proved to
    compute what the functions of `Semantics` define. */
module Engine {
  import opened Wrappers
  import opened Strings
  import opened Placeholders
  import opened Ir
  import opened Semantics
  import FsTrees
  import Procedure
  import IndexOrder

  /** `AfterText` composes: text put in front twice is put in front once. */
  lemma AfterTextTwice<E>(a: string, b: string, o: Outcome<string, E>)
    ensures AfterText(a, AfterText(b, o)) == AfterText(a + b, o)
  {
    if o.Success? {
      assert a + (b + o.value) == (a + b) + o.value;
    }
  }

  lemma AfterTextNothing<E>(o: Outcome<string, E>)
    ensures AfterText("", o) == o
  {
    if o.Success? {
      assert "" + o.value == o.value;
    }
  }

  /** `Value::generate`. */
  method Generate(ir: IR, v: Procedure.Value, fuel: nat) returns (r: Outcome<string, ValueGenerationError>)
    ensures r == Semantics.Generate(ir, v, fuel)
    decreases fuel, 1, 0
  {
    match v
    case Text(txt) =>
      r := Success(txt);
    case Int(n) =>
      r := Success(NatToString(n));
    case UnixTimestamp(value) =>
      match ir.fromTimestamp(AsI64(value)) {
        case None =>
          r := Failure(UnixTimestampOutOfReach);
        case Some(t) =>
          r := Success(TimeElement(t));
      }
    case Md(path) =>
      var entry := FsTrees.Lookup(ir.pages, "pages/" + path);
      if entry.Some? && entry.value.TextFile? {
        r := Success(ir.markdownToHtml(entry.value.text));
      } else {
        r := Failure(FileDoesntExist(path));
      }
    case TextFile(path) =>
      var entry := FsTrees.Lookup(ir.pages, "pages/" + path);
      if entry.Some? && entry.value.TextFile? {
        r := Success(entry.value.text);
      } else {
        r := Failure(FileDoesntExist(path));
      }
    case Index(path, item) =>
      var dir := FsTrees.Lookup(ir.pages, "pages/" + path);
      if dir.None? || !dir.value.Directory? {
        return Failure(NoDirAtIndexPath(path));
      }
      var children := IndexOrder.SortNewestFirst(dir.value.children);
      r := IndexEntries(ir, children, item, fuel);
  }

  /** The loop of `generate` over the children of an `Index` directory, newest first. */
  method IndexEntries(ir: IR, children: seq<FsTrees.ParsedFsTree>, item: string, fuel: nat)
    returns (r: Outcome<string, ValueGenerationError>)
    ensures r == IndexItems(ir, children, item, fuel)
    decreases fuel, 0, |children|
  {
    var html := "";
    var i := 0;
    assert children[i..] == children;
    AfterTextNothing(IndexItems(ir, children, item, fuel));
    while i < |children|
      invariant 0 <= i <= |children|
      invariant IndexItems(ir, children, item, fuel) == AfterText(html, IndexItems(ir, children[i..], item, fuel))
    {
      assert children[i..][1..] == children[i + 1..];
      var child := children[i];
      if child.content.BuildProcedure? && child.name != "index.yml" {
        if child.created.None? {
          return Failure(IndexGitTimestampMissing(child.name));
        }
        if item !in ir.components {
          return Failure(ValueGenerationError.MissingComponent(item));
        }
        if fuel == 0 {
          return OutOfFuel;
        }
        var proc := WithLink(child.content.procedure, child.name);
        var element := ExecuteWithTemplateOverride(ir, proc, ir.components[item], fuel - 1);
        match element {
          case Failure(e) =>
            return Failure(CantBuildIndexItem(child.name, e));
          case OutOfFuel =>
            return OutOfFuel;
          case Success(elementHtml) =>
            AfterTextTwice(html, "\n" + elementHtml, IndexItems(ir, children[i + 1..], item, fuel));
            html := html + ("\n" + elementHtml);
        }
      }
      i := i + 1;
    }
    assert children[i..] == [] && html + "" == html;
    r := Success(html);
  }

  /** The first loop of `resolved`: each used component replaces its placeholders. */
  method InsertComponents(html: string, names: seq<string>, components: map<string, FwHTML>)
    returns (r: Result<string, FwHTMLResolveError>)
    ensures r == SubstComponents(html, names, components)
  {
    var out := html;
    var i := 0;
    while i < |names|
      invariant 0 <= i <= |names|
      invariant SubstComponents(html, names, components) == SubstComponents(out, names[i..], components)
    {
      assert names[i..][1..] == names[i + 1..];
      var name := names[i];
      if name !in components {
        return Err(FwHTMLResolveError.MissingComponent(name));
      }
      out := ReplaceAll(out, Token(Component, name), components[name].data);
      i := i + 1;
    }
    r := Ok(out);
  }

  /** The second loop of `resolved`: each used variable that is bound is generated and replaces
      its placeholders. */
  method InsertVariables(ir: IR, html: string, names: seq<string>, vars: map<string, Procedure.Value>, fuel: nat)
    returns (r: Outcome<string, FwHTMLResolveError>)
    ensures r == SubstVariables(ir, html, names, vars, fuel)
    decreases fuel, 2, 0
  {
    var out := html;
    var j := 0;
    while j < |names|
      invariant 0 <= j <= |names|
      invariant SubstVariables(ir, html, names, vars, fuel) == SubstVariables(ir, out, names[j..], vars, fuel)
    {
      assert names[j..][1..] == names[j + 1..];
      var name := names[j];
      if name in vars {
        var value := Generate(ir, vars[name], fuel);
        match value {
          case Failure(e) =>
            return Failure(VariableError(name, e));
          case OutOfFuel =>
            return OutOfFuel;
          case Success(s) =>
            out := ReplaceAll(out, Token(Variable, name), s);
        }
      }
      j := j + 1;
    }
    r := Success(out);
  }

  /** `FwHTML::resolved`: components, variables, then resolving again while a placeholder that
      can be filled is left. */
  method Resolved(ir: IR, h: FwHTML, vars: map<string, Procedure.Value>, fuel: nat)
    returns (r: Outcome<FwHTML, FwHTMLResolveError>)
    ensures r == Semantics.Resolved(ir, h, vars, fuel)
    decreases fuel, 3, 0
  {
    var withComponents := InsertComponents(h.data, h.usedComponents, ir.components);
    if withComponents.Err? {
      return Failure(withComponents.error);
    }
    var html := InsertVariables(ir, withComponents.value, h.usedVariables, vars, fuel);
    if !html.Success? {
      return if html.Failure? then Failure(html.error) else OutOfFuel;
    }
    r := ResolveAgain(ir, New(html.value).value, vars, fuel);
  }

  /** The `while` loop of `resolved`: resolve again, and re-analyse the text, as long as a bound
      variable or a present component is used. */
  method ResolveAgain(ir: IR, h: FwHTML, vars: map<string, Procedure.Value>, fuel: nat)
    returns (r: Outcome<FwHTML, FwHTMLResolveError>)
    ensures r == Repeat(ir, h, vars, fuel)
    decreases fuel, 2, 0
  {
    var next := h;
    var f: nat := fuel;
    while NeedsResolving(next, ir.components, vars)
      invariant f <= fuel
      invariant Repeat(ir, next, vars, f) == Repeat(ir, h, vars, fuel)
      decreases f
    {
      if f == 0 {
        return OutOfFuel;
      }
      f := f - 1;
      var again := Resolved(ir, next, vars, f);
      RepeatStep(ir, next, vars, f, again);
      if again.Failure? {
        return Failure(again.error);
      } else if again.OutOfFuel? {
        return OutOfFuel;
      }
      next := New(again.value.data).value;
    }
    r := Success(next);
  }

  /** `BuildProcedure::execute_with_template_override`: the bindings grow step by step and the
      document is resolved after each. */
  method ExecuteWithTemplateOverride(ir: IR, proc: Procedure.BuildProcedure, template: FwHTML, fuel: nat)
    returns (r: Outcome<string, BuildProcedureBuildError>)
    ensures r == Semantics.ExecuteWithTemplateOverride(ir, proc, template, fuel)
    decreases fuel, 5, 0
  {
    var vars: map<string, Procedure.Value> := map[];
    var h := template;
    var i := 0;
    while i < |proc.steps|
      invariant 0 <= i <= |proc.steps|
      invariant vars == Bindings(proc.steps[..i])
      invariant Semantics.ExecuteWithTemplateOverride(ir, proc, template, fuel) == RunSteps(ir, proc.steps, i, h, fuel)
    {
      assert proc.steps[..i + 1][..i] == proc.steps[..i];
      vars := vars + proc.steps[i].vars;
      var step := Resolved(ir, h, vars, fuel);
      match step {
        case Failure(e) =>
          return Failure(TemplateResolveError(e));
        case OutOfFuel =>
          return OutOfFuel;
        case Success(next) =>
          h := next;
      }
      i := i + 1;
    }
    r := Success(Output(h));
  }

  /** `BuildProcedure::execute`. */
  method Execute(ir: IR, proc: Procedure.BuildProcedure, fuel: nat) returns (r: Outcome<string, BuildProcedureBuildError>)
    ensures r == Semantics.Execute(ir, proc, fuel)
  {
    if proc.template !in ir.templates {
      return Failure(TemplateNotFound(proc.template));
    }
    r := ExecuteWithTemplateOverride(ir, proc, ir.templates[proc.template], fuel);
  }
}
