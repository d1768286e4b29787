/** What building a page means (builder/src/builder.rs and `FwHTML::resolved` in
    builder/src/ir.rs): the values a procedure binds, the generation of a value's text, the
    resolution of a document against components and bindings, and the execution of a procedure
    step by step.

    `resolved` re-resolves until nothing is left to substitute and an `Index` value runs other
    procedures; neither is guarded against cycles. The functions here therefore share a `fuel`
    argument, spent once per repeated resolution and once per index item, and answer `OutOfFuel`
    when it is exhausted; `OutOfFuel` is never turned into an error of the builder. */
module Semantics {
  import opened Wrappers
  import opened Strings
  import opened Placeholders
  import opened Ir
  import FsTrees
  import Procedure
  import IndexOrder
  import Loader

  /** A result of the builder, or the fuel running out first. */
  datatype Outcome<+T, +E> = Success(value: T) | Failure(error: E) | OutOfFuel

  datatype ValueGenerationError =
    | FileDoesntExist(path: string)
    | UnixTimestampOutOfReach
    | NoDirAtIndexPath(path: string)
    | CantBuildIndexItem(item: string, cause: BuildProcedureBuildError)
    | MissingComponent(component: string)
    | IndexGitTimestampMissing(entry: string)

  datatype FwHTMLResolveError =
    | MissingComponent(name: string)
    | VariableError(variable: string, cause: ValueGenerationError)

  /** `CantResolveVars` is never constructed by the builder and is not part of this model. */
  datatype BuildProcedureBuildError =
    | TemplateNotFound(template: string)
    | TemplateResolveError(resolveError: FwHTMLResolveError)

  /** `prefix` in front of a successful text. */
  function AfterText<E>(prefix: string, o: Outcome<string, E>): Outcome<string, E>
  {
    match o
    case Success(s) => Success(prefix + s)
    case Failure(e) => Failure(e)
    case OutOfFuel => OutOfFuel
  }

  // ---------------------------------------------------------------------------------------------
  // Helpers of `Value::generate`

  /** `value as i64` for a `u64`: values from 2^63 on wrap around to negative numbers. */
  function AsI64(value: Loader.u64): (r: int)
    ensures I64Min <= r <= I64Max
    ensures r == value || r == value - 0x1_0000_0000_0000_0000
    ensures r >= 0 <==> value <= I64Max
  {
    if value <= I64Max then value else value - 0x1_0000_0000_0000_0000
  }

  /** `<time datetime="R">D</time>`. */
  function TimeElement(t: DateTime): string
  {
    "<time datetime=\"" + t.rfc3339 + "\">" + t.date + "</time>"
  }

  /** The text of the file `pages/{path}`, when the page tree has a text file there. */
  function PageFile(ir: IR, path: string): Option<string>
  {
    match FsTrees.Get(ir.pages, "pages/" + path)
    case Some(TextFile(text)) => Some(text)
    case _ => None
  }

  /** The step put in front of an index item's procedure: it binds `link` to the page the item
      becomes. */
  function LinkStep(name: string): Procedure.Step
  {
    Procedure.Step(Some("~~ index vars"), map["link" := Procedure.Text(ReplaceAll(name, ".yml", ".html"))])
  }

  function WithLink(proc: Procedure.BuildProcedure, name: string): Procedure.BuildProcedure
  {
    Procedure.BuildProcedure(proc.template, [LinkStep(name)] + proc.steps)
  }

  /** The variables bound after the given steps: each name to its value in the latest step
      binding it. */
  function Bindings(steps: seq<Procedure.Step>): map<string, Procedure.Value>
    decreases |steps|
  {
    if steps == [] then map[] else Bindings(steps[..|steps| - 1]) + steps[|steps| - 1].vars
  }

  /** The document still uses a bound variable or a present component: the condition of the
      `while` in `resolved`. */
  predicate NeedsResolving(h: FwHTML, components: map<string, FwHTML>, vars: map<string, Procedure.Value>)
  {
    (exists n :: n in h.usedVariables && n in vars) || (exists n :: n in h.usedComponents && n in components)
  }

  /** The first loop of `resolved`: each used component, in order, is substituted for its
      placeholder; the first that is missing is an error. */
  function SubstComponents(html: string, names: seq<string>, components: map<string, FwHTML>)
    : Result<string, FwHTMLResolveError>
    decreases |names|
  {
    if names == [] then Ok(html)
    else if names[0] !in components then Err(FwHTMLResolveError.MissingComponent(names[0]))
    else SubstComponents(ReplaceAll(html, Token(Component, names[0]), components[names[0]].data),
                         names[1..], components)
  }

  // ---------------------------------------------------------------------------------------------
  // The mutually recursive core

  /** `Value::generate`. */
  function Generate(ir: IR, v: Procedure.Value, fuel: nat): (r: Outcome<string, ValueGenerationError>)
    ensures v.Text? ==> r == Success(v.text)
    ensures v.Int? ==> r.Success? && r.value != [] && AllDigits(r.value) && DigitsValue(r.value) == v.number
                       && (r.value[0] == '0' ==> r.value == "0")
    ensures v.UnixTimestamp? ==>
              (r.Failure? <==> ir.fromTimestamp(AsI64(v.value)).None?)
              && (r.Success? ==> r.value == TimeElement(ir.fromTimestamp(AsI64(v.value)).value))
    ensures v.Md? ==>
              (r.Failure? <==> PageFile(ir, v.path).None?)
              && (r.Failure? ==> r.error == FileDoesntExist(v.path))
              && (r.Success? ==> r.value == ir.markdownToHtml(PageFile(ir, v.path).value))
    ensures v.TextFile? ==>
              (r.Failure? <==> PageFile(ir, v.path).None?)
              && (r.Failure? ==> r.error == FileDoesntExist(v.path))
              && (r.Success? ==> r.value == PageFile(ir, v.path).value)
    ensures v.Index? ==>
              (r == Failure(NoDirAtIndexPath(v.path)) <==>
                 !(FsTrees.Get(ir.pages, "pages/" + v.path).Some? &&
                   FsTrees.Get(ir.pages, "pages/" + v.path).value.Directory?))
    decreases fuel, 1, 0
  {
    match v
    case Text(txt) => Success(txt)
    case Int(n) => Success(NatToString(n))
    case UnixTimestamp(value) =>
      (match ir.fromTimestamp(AsI64(value))
       case None => Failure(UnixTimestampOutOfReach)
       case Some(t) => Success(TimeElement(t)))
    case Md(path) =>
      (match PageFile(ir, path)
       case Some(md) => Success(ir.markdownToHtml(md))
       case None => Failure(FileDoesntExist(path)))
    case TextFile(path) =>
      (match PageFile(ir, path)
       case Some(text) => Success(text)
       case None => Failure(FileDoesntExist(path)))
    case Index(path, item) =>
      (match FsTrees.Get(ir.pages, "pages/" + path)
       case Some(Directory(children)) => IndexItems(ir, IndexOrder.SortNewestFirst(children), item, fuel)
       case _ => Failure(NoDirAtIndexPath(path)))
  }

  /** The loop of the `Index` arm over the (sorted) children: each build procedure other than
      `index.yml` is run against the item component with a `link` step in front, and its text
      appended after a newline. */
  function IndexItems(ir: IR, children: seq<FsTrees.ParsedFsTree>, item: string, fuel: nat)
    : (r: Outcome<string, ValueGenerationError>)
    ensures r.Failure? ==>
              r.error.CantBuildIndexItem? || r.error.IndexGitTimestampMissing? || r.error.MissingComponent?
    decreases fuel, 0, |children|
  {
    if children == [] then Success("")
    else
      var child := children[0];
      if !child.content.BuildProcedure? || child.name == "index.yml" then
        IndexItems(ir, children[1..], item, fuel)
      else if child.created.None? then Failure(IndexGitTimestampMissing(child.name))
      else if item !in ir.components then Failure(ValueGenerationError.MissingComponent(item))
      else if fuel == 0 then OutOfFuel
      else
        match ExecuteWithTemplateOverride(ir, WithLink(child.content.procedure, child.name),
                                          ir.components[item], fuel - 1)
        case Failure(e) => Failure(CantBuildIndexItem(child.name, e))
        case OutOfFuel => OutOfFuel
        case Success(html) => AfterText("\n" + html, IndexItems(ir, children[1..], item, fuel))
  }

  /** The second loop of `resolved`: each used variable that is bound, in order, is generated
      and substituted for its placeholder; unbound ones are left alone. */
  function SubstVariables(ir: IR, html: string, names: seq<string>, vars: map<string, Procedure.Value>,
                          fuel: nat): Outcome<string, FwHTMLResolveError>
    decreases fuel, 2, |names|
  {
    if names == [] then Success(html)
    else if names[0] !in vars then SubstVariables(ir, html, names[1..], vars, fuel)
    else
      match Generate(ir, vars[names[0]], fuel)
      case Failure(e) => Failure(VariableError(names[0], e))
      case OutOfFuel => OutOfFuel
      case Success(s) => SubstVariables(ir, ReplaceAll(html, Token(Variable, names[0]), s), names[1..], vars, fuel)
  }

  /** `FwHTML::resolved`: components, then variables, then resolving again while needed. */
  function Resolved(ir: IR, h: FwHTML, vars: map<string, Procedure.Value>, fuel: nat)
    : Outcome<FwHTML, FwHTMLResolveError>
    decreases fuel, 3, 0
  {
    match SubstComponents(h.data, h.usedComponents, ir.components)
    case Err(e) => Failure(e)
    case Ok(html) =>
      match SubstVariables(ir, html, h.usedVariables, vars, fuel)
      case Failure(e) => Failure(e)
      case OutOfFuel => OutOfFuel
      case Success(html') => Repeat(ir, New(html').value, vars, fuel)
  }

  /** The `while` loop of `resolved`. */
  function Repeat(ir: IR, h: FwHTML, vars: map<string, Procedure.Value>, fuel: nat)
    : Outcome<FwHTML, FwHTMLResolveError>
    decreases fuel, 2, 0
  {
    if !NeedsResolving(h, ir.components, vars) then Success(h)
    else if fuel == 0 then OutOfFuel
    else
      match Resolved(ir, h, vars, fuel - 1)
      case Failure(e) => Failure(e)
      case OutOfFuel => OutOfFuel
      case Success(next) => Repeat(ir, New(next.data).value, vars, fuel - 1)
  }

  /** One turn of the `while` loop of `resolved`. */
  lemma RepeatStep(ir: IR, h: FwHTML, vars: map<string, Procedure.Value>, fuel: nat,
                   again: Outcome<FwHTML, FwHTMLResolveError>)
    requires NeedsResolving(h, ir.components, vars)
    requires again == Resolved(ir, h, vars, fuel)
    ensures again.Failure? ==> Repeat(ir, h, vars, fuel + 1) == Failure(again.error)
    ensures again.OutOfFuel? ==> Repeat(ir, h, vars, fuel + 1) == OutOfFuel
    ensures again.Success? ==> Repeat(ir, h, vars, fuel + 1) == Repeat(ir, New(again.value.data).value, vars, fuel)
  {
  }

  /** The loop of `execute_with_template_override` from step `i` on, the document resolved so
      far being `h`: before step `i` is resolved, the bindings are those of steps 0..i. */
  function RunSteps(ir: IR, steps: seq<Procedure.Step>, i: nat, h: FwHTML, fuel: nat)
    : Outcome<string, BuildProcedureBuildError>
    requires i <= |steps|
    decreases fuel, 4, |steps| - i
  {
    if i == |steps| then Success(Output(h))
    else
      match Resolved(ir, h, Bindings(steps[..i + 1]), fuel)
      case Failure(e) => Failure(TemplateResolveError(e))
      case OutOfFuel => OutOfFuel
      case Success(next) => RunSteps(ir, steps, i + 1, next, fuel)
  }

  /** `BuildProcedure::execute_with_template_override`. */
  function ExecuteWithTemplateOverride(ir: IR, proc: Procedure.BuildProcedure, template: FwHTML, fuel: nat)
    : Outcome<string, BuildProcedureBuildError>
    decreases fuel, 5, 0
  {
    RunSteps(ir, proc.steps, 0, template, fuel)
  }

  /** `BuildProcedure::execute`. */
  function Execute(ir: IR, proc: Procedure.BuildProcedure, fuel: nat): Outcome<string, BuildProcedureBuildError>
  {
    if proc.template !in ir.templates then Failure(TemplateNotFound(proc.template))
    else ExecuteWithTemplateOverride(ir, proc, ir.templates[proc.template], fuel)
  }
}
