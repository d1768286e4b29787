/** What executing a build procedure promises (builder/src/builder.rs): the bindings each step
    sees, the errors `execute` can end with, and the skip, error and link rules of the `Index`
    value. */
module Execution {
  import opened Wrappers
  import opened Strings
  import opened Ir
  import opened Semantics
  import FsTrees
  import Procedure
  import IndexOrder

  // ---------------------------------------------------------------------------------------------
  // Bindings

  /** A name is bound after some steps iff one of them binds it. */
  lemma {:induction false} BindingsDomain(steps: seq<Procedure.Step>, k: string)
    ensures k in Bindings(steps) <==> exists j :: 0 <= j < |steps| && k in steps[j].vars
    decreases |steps|
  {
    if steps != [] {
      var n := |steps| - 1;
      var front := steps[..n];
      BindingsDomain(front, k);
      assert Bindings(steps) == Bindings(front) + steps[n].vars;
      if k in Bindings(steps) && k !in steps[n].vars {
        var j :| 0 <= j < |front| && k in front[j].vars;
        assert steps[j] == front[j];
      }
      if exists j :: 0 <= j < |steps| && k in steps[j].vars {
        var j :| 0 <= j < |steps| && k in steps[j].vars;
        if j < n { assert front[j] == steps[j]; }
      }
    }
  }

  /** A name is bound to its value in the latest step that binds it. */
  lemma {:induction false} BindingsLatest(steps: seq<Procedure.Step>, j: nat, k: string)
    requires j < |steps| && k in steps[j].vars
    requires forall l :: j < l < |steps| ==> k !in steps[l].vars
    ensures k in Bindings(steps) && Bindings(steps)[k] == steps[j].vars[k]
    decreases |steps|
  {
    var n := |steps| - 1;
    var front := steps[..n];
    assert Bindings(steps) == Bindings(front) + steps[n].vars;
    if j < n {
      assert front[j] == steps[j];
      forall l | j < l < |front| ensures k !in front[l].vars {
        assert front[l] == steps[l];
      }
      BindingsLatest(front, j, k);
    }
  }

  /** Inside an index item the `link` binding, which the first step adds, is seen by every
      step, unless the item's own steps bind `link` again. */
  lemma LinkVisible(proc: Procedure.BuildProcedure, name: string, i: nat)
    requires i < |WithLink(proc, name).steps|
    requires forall j :: 0 <= j < |proc.steps| ==> "link" !in proc.steps[j].vars
    ensures "link" in Bindings(WithLink(proc, name).steps[..i + 1])
    ensures Bindings(WithLink(proc, name).steps[..i + 1])["link"] ==
              Procedure.Text(ReplaceAll(name, ".yml", ".html"))
  {
    var steps := WithLink(proc, name).steps[..i + 1];
    assert steps[0] == LinkStep(name);
    assert "link" in steps[0].vars;
    forall l | 0 < l < |steps| ensures "link" !in steps[l].vars {
      assert steps[l] == proc.steps[l - 1];
    }
    BindingsLatest(steps, 0, "link");
  }

  /** The link of an item named `stem.yml` (with no other `.yml` in it) is `stem.html`. */
  lemma LinkOfItem(stem: string)
    requires forall i: nat :: !OccursAt(stem, i, ".yml")
    ensures LinkStep(stem + ".yml").vars["link"] == Procedure.Text(stem + ".html")
  {
    ReplaceAllLastOnly(stem, ".yml", ".html");
  }

  // ---------------------------------------------------------------------------------------------
  // execute

  /** The steps loop ends with the document's text after the last step, or with the resolve
      error of the first step that fails, wrapped as `TemplateResolveError`. */
  lemma {:induction false} RunStepsErrors(ir: IR, steps: seq<Procedure.Step>, i: nat, h: FwHTML, fuel: nat)
    requires i <= |steps|
    ensures i == |steps| ==> RunSteps(ir, steps, i, h, fuel) == Success(h.data)
    ensures RunSteps(ir, steps, i, h, fuel).Failure? ==> RunSteps(ir, steps, i, h, fuel).error.TemplateResolveError?
    decreases |steps| - i
  {
    if i < |steps| {
      var r := Resolved(ir, h, Bindings(steps[..i + 1]), fuel);
      if r.Success? {
        RunStepsErrors(ir, steps, i + 1, r.value, fuel);
      }
    }
  }

  /** `execute` fails with `TemplateNotFound` exactly when the procedure's template is absent;
      otherwise it is `execute_with_template_override` on that template, and a procedure without
      steps gives the template's text unchanged. */
  lemma ExecuteMeaning(ir: IR, proc: Procedure.BuildProcedure, fuel: nat)
    ensures (Execute(ir, proc, fuel).Failure? && Execute(ir, proc, fuel).error.TemplateNotFound?) <==>
              proc.template !in ir.templates
    ensures proc.template !in ir.templates ==> Execute(ir, proc, fuel) == Failure(TemplateNotFound(proc.template))
    ensures proc.template in ir.templates ==>
              Execute(ir, proc, fuel) == ExecuteWithTemplateOverride(ir, proc, ir.templates[proc.template], fuel)
    ensures proc.template in ir.templates && proc.steps == [] ==>
              Execute(ir, proc, fuel) == Success(ir.templates[proc.template].data)
  {
    if proc.template in ir.templates {
      RunStepsErrors(ir, proc.steps, 0, ir.templates[proc.template], fuel);
    }
  }

  // ---------------------------------------------------------------------------------------------
  // The Index value

  /** The children an `Index` value builds items from: build procedures not named `index.yml`. */
  predicate Eligible(t: FsTrees.ParsedFsTree)
  {
    t.content.BuildProcedure? && t.name != "index.yml"
  }

  function EligibleOnly(ts: seq<FsTrees.ParsedFsTree>): (r: seq<FsTrees.ParsedFsTree>)
    ensures forall t :: t in r <==> t in ts && Eligible(t)
    ensures forall i :: 0 <= i < |r| ==> Eligible(r[i])
    decreases |ts|
  {
    if ts == [] then []
    else (if Eligible(ts[0]) then [ts[0]] else []) + EligibleOnly(ts[1..])
  }

  /** Other entries are skipped: the items are those of the eligible children alone. */
  lemma {:induction false} IndexSkipsIneligible(ir: IR, ts: seq<FsTrees.ParsedFsTree>, item: string, fuel: nat)
    ensures IndexItems(ir, ts, item, fuel) == IndexItems(ir, EligibleOnly(ts), item, fuel)
    decreases |ts|
  {
    if ts != [] {
      IndexSkipsIneligible(ir, ts[1..], item, fuel);
      var e := EligibleOnly(ts);
      if Eligible(ts[0]) {
        assert e == [ts[0]] + EligibleOnly(ts[1..]);
        assert e[0] == ts[0] && e[1..] == EligibleOnly(ts[1..]);
        assert e != [];
      } else {
        assert e == EligibleOnly(ts[1..]);
      }
    }
  }

  /** With no eligible child the index is empty text, whatever the component; otherwise the
      first eligible child decides the first error: no creation time, then a missing item
      component; and a failing item is reported with its name. */
  lemma IndexErrors(ir: IR, ts: seq<FsTrees.ParsedFsTree>, item: string, fuel: nat)
    ensures EligibleOnly(ts) == [] ==> IndexItems(ir, ts, item, fuel) == Success("")
    ensures EligibleOnly(ts) != [] && EligibleOnly(ts)[0].created.None? ==>
              IndexItems(ir, ts, item, fuel) == Failure(IndexGitTimestampMissing(EligibleOnly(ts)[0].name))
    ensures EligibleOnly(ts) != [] && EligibleOnly(ts)[0].created.Some? && item !in ir.components ==>
              IndexItems(ir, ts, item, fuel) == Failure(ValueGenerationError.MissingComponent(item))
    ensures EligibleOnly(ts) != [] && EligibleOnly(ts)[0].created.Some? && item in ir.components && fuel > 0 ==>
              var first := EligibleOnly(ts)[0];
              var run := ExecuteWithTemplateOverride(ir, WithLink(first.content.procedure, first.name),
                                                     ir.components[item], fuel - 1);
              run.Failure? ==> IndexItems(ir, ts, item, fuel) == Failure(CantBuildIndexItem(first.name, run.error))
  {
    IndexSkipsIneligible(ir, ts, item, fuel);
  }

  /** An `Index` value over an existing directory lists the eligible children newest first. */
  lemma GenerateIndex(ir: IR, path: string, item: string, fuel: nat)
    requires FsTrees.Get(ir.pages, "pages/" + path).Some?
    requires FsTrees.Get(ir.pages, "pages/" + path).value.Directory?
    ensures
      var children := FsTrees.Get(ir.pages, "pages/" + path).value.children;
      Generate(ir, Procedure.Index(path, item), fuel) ==
        IndexItems(ir, EligibleOnly(IndexOrder.SortNewestFirst(children)), item, fuel)
  {
    var children := FsTrees.Get(ir.pages, "pages/" + path).value.children;
    IndexSkipsIneligible(ir, IndexOrder.SortNewestFirst(children), item, fuel);
  }
}
