/** What `FwHTML::resolved` (builder/src/ir.rs) promises: the first missing component is an
    error, unbound variables are left alone, a generation error names its variable, a successful
    result is a fixed point, and a document with nothing to substitute comes back unchanged. */
module Resolution {
  import opened Wrappers
  import opened Strings
  import opened Placeholders
  import opened Ir
  import opened Semantics
  import Procedure

  /** The components loop fails exactly when a used component is missing, and then with the
      first missing one. */
  lemma {:induction false} SubstComponentsMeaning(html: string, names: seq<string>, components: map<string, FwHTML>)
    ensures SubstComponents(html, names, components).Err? <==>
              exists i :: 0 <= i < |names| && names[i] !in components
    ensures SubstComponents(html, names, components).Err? ==>
              exists i :: 0 <= i < |names| && names[i] !in components
                && (forall j :: 0 <= j < i ==> names[j] in components)
                && SubstComponents(html, names, components).error == FwHTMLResolveError.MissingComponent(names[i])
    decreases |names|
  {
    if names != [] && names[0] in components {
      var rest := names[1..];
      var next := ReplaceAll(html, Token(Component, names[0]), components[names[0]].data);
      SubstComponentsMeaning(next, rest, components);
      if SubstComponents(next, rest, components).Err? {
        var i :| 0 <= i < |rest| && rest[i] !in components
          && (forall j :: 0 <= j < i ==> rest[j] in components)
          && SubstComponents(next, rest, components).error == FwHTMLResolveError.MissingComponent(rest[i]);
        assert names[i + 1] == rest[i];
        forall j | 0 <= j < i + 1 ensures names[j] in components {
          if j > 0 { assert names[j] == rest[j - 1]; }
        }
      }
      if exists i :: 0 <= i < |names| && names[i] !in components {
        var i :| 0 <= i < |names| && names[i] !in components;
        assert rest[i - 1] == names[i];
      }
    }
  }

  /** A document using a component absent from the map fails to resolve with `MissingComponent`
      naming the least (in string order) of the absent components it uses. */
  lemma ResolvedMissingComponent(ir: IR, h: FwHTML, vars: map<string, Procedure.Value>, fuel: nat)
    requires Consistent(h)
    requires exists c :: Referenced(h.data, Component, c) && c !in ir.components
    ensures
      var r := Resolved(ir, h, vars, fuel);
      && r.Failure? && r.error.MissingComponent?
      && Referenced(h.data, Component, r.error.name)
      && r.error.name !in ir.components
      && forall d :: Referenced(h.data, Component, d) && Less(d, r.error.name) ==> d in ir.components
  {
    var names := h.usedComponents;
    SubstComponentsMeaning(h.data, names, ir.components);
    var i :| 0 <= i < |names| && names[i] !in ir.components
      && (forall j :: 0 <= j < i ==> names[j] in ir.components)
      && SubstComponents(h.data, names, ir.components).error == FwHTMLResolveError.MissingComponent(names[i]);
    forall d | Referenced(h.data, Component, d) && Less(d, names[i]) ensures d in ir.components {
      var j :| 0 <= j < |names| && names[j] == d;
      if j > i {
        LessAsymmetric(names[i], names[j]);
      } else if j == i {
        LessIrreflexive(d);
      }
    }
  }

  /** The variables loop leaves the text alone when no used variable is bound; it succeeds when
      every bound one generates; and a failure is the first bound variable whose generation
      fails, wrapped with its name. */
  lemma {:induction false} SubstVariablesMeaning(ir: IR, html: string, names: seq<string>,
                                                 vars: map<string, Procedure.Value>, fuel: nat)
    ensures (forall n :: n in names ==> n !in vars) ==> SubstVariables(ir, html, names, vars, fuel) == Success(html)
    ensures (forall n :: n in names && n in vars ==> Generate(ir, vars[n], fuel).Success?) ==>
              SubstVariables(ir, html, names, vars, fuel).Success?
    ensures SubstVariables(ir, html, names, vars, fuel).Failure? ==>
              exists i :: 0 <= i < |names| && names[i] in vars
                && Generate(ir, vars[names[i]], fuel).Failure?
                && (forall j :: 0 <= j < i && names[j] in vars ==> Generate(ir, vars[names[j]], fuel).Success?)
                && SubstVariables(ir, html, names, vars, fuel).error ==
                     VariableError(names[i], Generate(ir, vars[names[i]], fuel).error)
    decreases |names|
  {
    if names != [] {
      var rest := names[1..];
      var next := html;
      if names[0] in vars && Generate(ir, vars[names[0]], fuel).Success? {
        next := ReplaceAll(html, Token(Variable, names[0]), Generate(ir, vars[names[0]], fuel).value);
      }
      SubstVariablesMeaning(ir, next, rest, vars, fuel);
      var r := SubstVariables(ir, html, names, vars, fuel);
      if r.Failure? && (names[0] !in vars || Generate(ir, vars[names[0]], fuel).Success?) {
        assert r == SubstVariables(ir, next, rest, vars, fuel);
        var i :| 0 <= i < |rest| && rest[i] in vars
          && Generate(ir, vars[rest[i]], fuel).Failure?
          && (forall j :: 0 <= j < i && rest[j] in vars ==> Generate(ir, vars[rest[j]], fuel).Success?)
          && r.error == VariableError(rest[i], Generate(ir, vars[rest[i]], fuel).error);
        assert names[i + 1] == rest[i];
        forall j | 0 <= j < i + 1 && names[j] in vars ensures Generate(ir, vars[names[j]], fuel).Success? {
          if j > 0 { assert names[j] == rest[j - 1]; }
        }
      }
    }
  }

  /** Substituting components leaves every variable placeholder standing: component names
      cannot reach into one. */
  lemma {:induction false} SubstComponentsKeepsVariable(html: string, names: seq<string>,
                                                        components: map<string, FwHTML>, u: string)
    requires forall n :: n in names ==> IsName(Component, n)
    requires Referenced(html, Variable, u)
    ensures SubstComponents(html, names, components).Ok? ==>
              Referenced(SubstComponents(html, names, components).value, Variable, u)
    decreases |names|
  {
    if names != [] && names[0] in components {
      var i: nat :| Occurs(html, i, Variable, u);
      var rep := components[names[0]].data;
      ReplaceKeepsPlaceholder(html, i, Variable, u, Component, names[0], rep);
      SubstComponentsKeepsVariable(ReplaceAll(html, Token(Component, names[0]), rep), names[1..], components, u);
    }
  }

  /** Substituting the bound variables leaves the placeholder of an unbound one standing. */
  lemma {:induction false} SubstVariablesKeepsUnbound(ir: IR, html: string, names: seq<string>,
                                                      vars: map<string, Procedure.Value>, fuel: nat, u: string)
    requires forall n :: n in names ==> IsName(Variable, n)
    requires u !in vars && Referenced(html, Variable, u)
    ensures SubstVariables(ir, html, names, vars, fuel).Success? ==>
              Referenced(SubstVariables(ir, html, names, vars, fuel).value, Variable, u)
    decreases |names|
  {
    if names != [] {
      if names[0] !in vars {
        SubstVariablesKeepsUnbound(ir, html, names[1..], vars, fuel, u);
      } else if Generate(ir, vars[names[0]], fuel).Success? {
        var i: nat :| Occurs(html, i, Variable, u);
        var rep := Generate(ir, vars[names[0]], fuel).value;
        ReplaceKeepsPlaceholder(html, i, Variable, u, Variable, names[0], rep);
        SubstVariablesKeepsUnbound(ir, ReplaceAll(html, Token(Variable, names[0]), rep), names[1..], vars, fuel, u);
      }
    }
  }

  /** `resolved` leaves the placeholder of a variable that is not bound in the text it returns,
      and the returned document still lists that variable as used. */
  lemma {:induction false} ResolvedKeepsUnbound(ir: IR, h: FwHTML, vars: map<string, Procedure.Value>,
                                                fuel: nat, u: string)
    requires Consistent(h)
    requires u !in vars && Referenced(h.data, Variable, u)
    ensures
      var r := Resolved(ir, h, vars, fuel);
      r.Success? ==> Referenced(r.value.data, Variable, u) && u in r.value.usedVariables
    decreases fuel, 1
  {
    forall n | n in h.usedComponents ensures IsName(Component, n) {
      var j: nat :| Occurs(h.data, j, Component, n);
    }
    forall n | n in h.usedVariables ensures IsName(Variable, n) {
      var j: nat :| Occurs(h.data, j, Variable, n);
    }
    var comps := SubstComponents(h.data, h.usedComponents, ir.components);
    SubstComponentsKeepsVariable(h.data, h.usedComponents, ir.components, u);
    if comps.Ok? {
      var vs := SubstVariables(ir, comps.value, h.usedVariables, vars, fuel);
      SubstVariablesKeepsUnbound(ir, comps.value, h.usedVariables, vars, fuel, u);
      if vs.Success? {
        RepeatKeepsUnbound(ir, New(vs.value).value, vars, fuel, u);
        RepeatConsistent(ir, New(vs.value).value, vars, fuel);
      }
    }
  }

  /** The `while` loop of `resolved` keeps the placeholder of an unbound variable. */
  lemma {:induction false} RepeatKeepsUnbound(ir: IR, h: FwHTML, vars: map<string, Procedure.Value>,
                                              fuel: nat, u: string)
    requires Consistent(h)
    requires u !in vars && Referenced(h.data, Variable, u)
    ensures Repeat(ir, h, vars, fuel).Success? ==> Referenced(Repeat(ir, h, vars, fuel).value.data, Variable, u)
    decreases fuel, 0
  {
    if NeedsResolving(h, ir.components, vars) && fuel > 0 {
      var f: nat := fuel - 1;
      var s := Resolved(ir, h, vars, f);
      RepeatStep(ir, h, vars, f, s);
      ResolvedKeepsUnbound(ir, h, vars, f, u);
      if s.Success? {
        RepeatKeepsUnbound(ir, New(s.value.data).value, vars, f, u);
      }
    }
  }

  /** The `while` loop of `resolved` only stops with a document that uses no bound variable
      and no present component. */
  lemma {:induction false} RepeatReachesFixedPoint(ir: IR, h: FwHTML, vars: map<string, Procedure.Value>, fuel: nat)
    ensures Repeat(ir, h, vars, fuel).Success? ==>
              !NeedsResolving(Repeat(ir, h, vars, fuel).value, ir.components, vars)
    decreases fuel
  {
    if NeedsResolving(h, ir.components, vars) && fuel > 0 {
      var f: nat := fuel - 1;
      var s := Resolved(ir, h, vars, f);
      RepeatStep(ir, h, vars, f, s);
      if s.Success? {
        RepeatReachesFixedPoint(ir, New(s.value.data).value, vars, f);
      }
    }
  }

  /** Every document the `while` loop of `resolved` answers with is analysed from its own text. */
  lemma {:induction false} RepeatConsistent(ir: IR, h: FwHTML, vars: map<string, Procedure.Value>, fuel: nat)
    requires Consistent(h)
    ensures Repeat(ir, h, vars, fuel).Success? ==> Consistent(Repeat(ir, h, vars, fuel).value)
    decreases fuel
  {
    if NeedsResolving(h, ir.components, vars) && fuel > 0 {
      var f: nat := fuel - 1;
      var s := Resolved(ir, h, vars, f);
      RepeatStep(ir, h, vars, f, s);
      if s.Success? {
        RepeatConsistent(ir, New(s.value.data).value, vars, f);
      }
    }
  }

  /** A resolved document uses no variable that is bound and no component that is present: no
      placeholder `resolved` could fill is left. */
  lemma ResolvedFixedPoint(ir: IR, h: FwHTML, vars: map<string, Procedure.Value>, fuel: nat)
    ensures
      var r := Resolved(ir, h, vars, fuel);
      r.Success? ==>
        && Consistent(r.value)
        && (forall n :: Referenced(r.value.data, Variable, n) ==> n !in vars)
        && (forall n :: Referenced(r.value.data, Component, n) ==> n !in ir.components)
  {
    var comps := SubstComponents(h.data, h.usedComponents, ir.components);
    if comps.Ok? {
      var vs := SubstVariables(ir, comps.value, h.usedVariables, vars, fuel);
      if vs.Success? {
        RepeatReachesFixedPoint(ir, New(vs.value).value, vars, fuel);
        RepeatConsistent(ir, New(vs.value).value, vars, fuel);
      }
    }
  }

  /** A document that uses no component and no bound variable resolves to itself. */
  lemma ResolvedIdentity(ir: IR, h: FwHTML, vars: map<string, Procedure.Value>, fuel: nat)
    requires Consistent(h)
    requires UsedComponents(h.data) == []
    requires forall n :: Referenced(h.data, Variable, n) ==> n !in vars
    ensures Resolved(ir, h, vars, fuel) == Success(h)
  {
    SubstVariablesMeaning(ir, h.data, h.usedVariables, vars, fuel);
  }
}
