/** `Website::build` (builder/src/website_builder.rs): every build procedure of the page tree
    becomes a page at the same path with extension `html`; the first procedure that fails to
    build aborts the whole website. */
module Website {
  import opened Wrappers
  import opened FsTrees
  import Procedure
  import Ir
  import Semantics
  import Engine

  /** The built pages: output path and HTML, in the order they were built. */
  datatype Website = Website(pages: seq<(Path, string)>)

  /** `path.set_extension("html")`: only the last component changes. */
  function OutputPath(path: Path): (r: Path)
    ensures |r| == |path|
    ensures |path| >= 1 ==> r[..|r| - 1] == path[..|path| - 1]
  {
    if path == [] then [] else path[..|path| - 1] + [SetExtension(path[|path| - 1], "html")]
  }

  /** The build procedures among the found entries, in order. */
  function Procedures(scripts: seq<(Path, ParsedFsEntry)>): (r: seq<(Path, Procedure.BuildProcedure)>)
    ensures |r| <= |scripts|
    decreases |scripts|
  {
    if scripts == [] then []
    else
      var rest := Procedures(scripts[1..]);
      if scripts[0].1.BuildProcedure? then [(scripts[0].0, scripts[0].1.procedure)] + rest else rest
  }

  /** `pages` in front of a successful list of pages. */
  function PagesAfter<E>(pages: seq<(Path, string)>, o: Semantics.Outcome<seq<(Path, string)>, E>)
    : Semantics.Outcome<seq<(Path, string)>, E>
  {
    match o
    case Success(more) => Semantics.Success(pages + more)
    case Failure(e) => Semantics.Failure(e)
    case OutOfFuel => Semantics.OutOfFuel
  }

  /** The loop of `build` over the found entries. */
  function BuildPages(ir: Ir.IR, scripts: seq<(Path, ParsedFsEntry)>, fuel: nat)
    : Semantics.Outcome<seq<(Path, string)>, Semantics.BuildProcedureBuildError>
    decreases |scripts|
  {
    if scripts == [] then Semantics.Success([])
    else if !scripts[0].1.BuildProcedure? then BuildPages(ir, scripts[1..], fuel)
    else
      match Semantics.Execute(ir, scripts[0].1.procedure, fuel)
      case Failure(e) => Semantics.Failure(e)
      case OutOfFuel => Semantics.OutOfFuel
      case Success(html) => PagesAfter([(OutputPath(scripts[0].0), html)], BuildPages(ir, scripts[1..], fuel))
  }

  /** The entries `build` visits: the `yml` files of the page tree. */
  function Scripts(ir: Ir.IR): seq<(Path, ParsedFsEntry)>
  {
    Filter(ir.pages, "yml")
  }

  lemma PagesAfterTwice<E>(a: seq<(Path, string)>, b: seq<(Path, string)>, o: Semantics.Outcome<seq<(Path, string)>, E>)
    ensures PagesAfter(a, PagesAfter(b, o)) == PagesAfter(a + b, o)
  {
    if o.Success? {
      assert a + (b + o.value) == (a + b) + o.value;
    }
  }

  /** `Website::build`. */
  method Build(ir: Ir.IR, fuel: nat) returns (r: Semantics.Outcome<Website, Semantics.BuildProcedureBuildError>)
    ensures BuildPages(ir, Scripts(ir), fuel).Success? <==> r.Success?
    ensures r.Success? ==> r.value.pages == BuildPages(ir, Scripts(ir), fuel).value
    ensures BuildPages(ir, Scripts(ir), fuel).Failure? <==> r.Failure?
    ensures r.Failure? ==> r.error == BuildPages(ir, Scripts(ir), fuel).error
  {
    var scripts := Filter(ir.pages, "yml");
    var built: seq<(Path, string)> := [];
    var i := 0;
    assert scripts[i..] == scripts;
    assert PagesAfter([], BuildPages(ir, scripts, fuel)) == BuildPages(ir, scripts, fuel) by {
      var o := BuildPages(ir, scripts, fuel);
      if o.Success? { assert [] + o.value == o.value; }
    }
    while i < |scripts|
      invariant 0 <= i <= |scripts|
      invariant BuildPages(ir, scripts, fuel) == PagesAfter(built, BuildPages(ir, scripts[i..], fuel))
    {
      assert scripts[i..][1..] == scripts[i + 1..];
      var (path, entry) := scripts[i];
      if entry.BuildProcedure? {
        var html := Engine.Execute(ir, entry.procedure, fuel);
        match html {
          case Failure(e) =>
            return Semantics.Failure(e);
          case OutOfFuel =>
            return Semantics.OutOfFuel;
          case Success(page) =>
            PagesAfterTwice(built, [(OutputPath(path), page)], BuildPages(ir, scripts[i + 1..], fuel));
            built := built + [(OutputPath(path), page)];
        }
      }
      i := i + 1;
    }
    assert scripts[i..] == [] && built + [] == built;
    r := Semantics.Success(Website(built));
  }

  /** The pages are the build procedures' outputs, one per procedure and in the order found,
      each at its procedure's path; a failure is the error of the first procedure that fails. */
  lemma BuildPagesMeaning(ir: Ir.IR, scripts: seq<(Path, ParsedFsEntry)>, fuel: nat)
    ensures
      var procs := Procedures(scripts);
      var o := BuildPages(ir, scripts, fuel);
      && (o.Success? ==>
            && |o.value| == |procs|
            && forall k :: 0 <= k < |procs| ==>
                 o.value[k].0 == OutputPath(procs[k].0)
                 && Semantics.Execute(ir, procs[k].1, fuel) == Semantics.Success(o.value[k].1))
      && (o.Failure? ==>
            exists k :: 0 <= k < |procs|
              && Semantics.Execute(ir, procs[k].1, fuel) == Semantics.Failure(o.error)
              && forall j :: 0 <= j < k ==> Semantics.Execute(ir, procs[j].1, fuel).Success?)
      && ((forall k :: 0 <= k < |procs| ==> Semantics.Execute(ir, procs[k].1, fuel).Success?) ==> o.Success?)
  {
    BuiltPages(ir, scripts, fuel);
    FirstFailure(ir, scripts, fuel);
    AllBuilt(ir, scripts, fuel);
  }

  /** The first entry's procedure comes first, then those of the rest. */
  lemma ProceduresStep(scripts: seq<(Path, ParsedFsEntry)>)
    requires scripts != []
    ensures scripts[0].1.BuildProcedure? ==>
              && |Procedures(scripts)| == |Procedures(scripts[1..])| + 1
              && Procedures(scripts)[0] == (scripts[0].0, scripts[0].1.procedure)
              && forall k :: 0 < k < |Procedures(scripts)| ==> Procedures(scripts)[k] == Procedures(scripts[1..])[k - 1]
    ensures !scripts[0].1.BuildProcedure? ==> Procedures(scripts) == Procedures(scripts[1..])
  {
  }

  lemma {:induction false} BuiltPages(ir: Ir.IR, scripts: seq<(Path, ParsedFsEntry)>, fuel: nat)
    ensures
      var procs := Procedures(scripts);
      var o := BuildPages(ir, scripts, fuel);
      o.Success? ==>
        && |o.value| == |procs|
        && forall k :: 0 <= k < |procs| ==>
             o.value[k].0 == OutputPath(procs[k].0)
             && Semantics.Execute(ir, procs[k].1, fuel) == Semantics.Success(o.value[k].1)
    decreases |scripts|
  {
    if scripts != [] {
      BuiltPages(ir, scripts[1..], fuel);
      ProceduresStep(scripts);
      var o := BuildPages(ir, scripts, fuel);
      if scripts[0].1.BuildProcedure? && o.Success? {
        var ot := BuildPages(ir, scripts[1..], fuel);
        assert o.value[1..] == ot.value;
      }
    }
  }

  lemma {:induction false} FirstFailure(ir: Ir.IR, scripts: seq<(Path, ParsedFsEntry)>, fuel: nat)
    ensures
      var procs := Procedures(scripts);
      var o := BuildPages(ir, scripts, fuel);
      o.Failure? ==>
        exists k :: 0 <= k < |procs|
          && Semantics.Execute(ir, procs[k].1, fuel) == Semantics.Failure(o.error)
          && forall j :: 0 <= j < k ==> Semantics.Execute(ir, procs[j].1, fuel).Success?
    decreases |scripts|
  {
    if scripts != [] {
      FirstFailure(ir, scripts[1..], fuel);
      ProceduresStep(scripts);
      var procs := Procedures(scripts);
      var tail := Procedures(scripts[1..]);
      var o := BuildPages(ir, scripts, fuel);
      if scripts[0].1.BuildProcedure? && o.Failure? {
        if Semantics.Execute(ir, procs[0].1, fuel).Failure? {
          assert 0 < |procs|;
        } else {
          var ot := BuildPages(ir, scripts[1..], fuel);
          var k :| 0 <= k < |tail|
            && Semantics.Execute(ir, tail[k].1, fuel) == Semantics.Failure(ot.error)
            && forall j :: 0 <= j < k ==> Semantics.Execute(ir, tail[j].1, fuel).Success?;
          assert procs[k + 1] == tail[k];
        }
      }
    }
  }

  lemma {:induction false} AllBuilt(ir: Ir.IR, scripts: seq<(Path, ParsedFsEntry)>, fuel: nat)
    ensures
      var procs := Procedures(scripts);
      (forall k :: 0 <= k < |procs| ==> Semantics.Execute(ir, procs[k].1, fuel).Success?) ==>
        BuildPages(ir, scripts, fuel).Success?
    decreases |scripts|
  {
    if scripts != [] {
      AllBuilt(ir, scripts[1..], fuel);
      ProceduresStep(scripts);
      var procs := Procedures(scripts);
      if forall k :: 0 <= k < |procs| ==> Semantics.Execute(ir, procs[k].1, fuel).Success? {
        var tail := Procedures(scripts[1..]);
        forall k | 0 <= k < |tail| ensures Semantics.Execute(ir, tail[k].1, fuel).Success? {
          if scripts[0].1.BuildProcedure? { assert tail[k] == procs[k + 1]; }
        }
        if scripts[0].1.BuildProcedure? {
          assert Semantics.Execute(ir, procs[0].1, fuel).Success?;
        }
      }
    }
  }

  /** Every page of the website sits where its `.yml` file was, under the same stem, with the
      extension `html`. */
  lemma PagesReplaceYml(ir: Ir.IR, k: nat)
    requires k < |Procedures(Scripts(ir))|
    ensures
      var path := Procedures(Scripts(ir))[k].0;
      var out := OutputPath(path);
      && |path| >= 1 && |out| == |path|
      && out[..|out| - 1] == path[..|path| - 1]
      && Extension(path[|path| - 1]) == Some("yml")
      && Extension(out[|out| - 1]) == Some("html")
      && FileStem(out[|out| - 1]) == FileStem(path[|path| - 1])
  {
    var scripts := Scripts(ir);
    ProceduresFrom(scripts, k);
    var path := Procedures(scripts)[k].0;
    var i :| 0 <= i < |scripts| && scripts[i].0 == path;
    FoundYml(ir, i);
    SetExtensionMeaning(path[|path| - 1], "html");
  }

  /** The entries `build` visits are named `*.yml`. */
  lemma FoundYml(ir: Ir.IR, i: nat)
    requires i < |Scripts(ir)|
    ensures |Scripts(ir)[i].0| >= 1
    ensures Extension(Scripts(ir)[i].0[|Scripts(ir)[i].0| - 1]) == Some("yml")
  {
    FilterSound(ir.pages, "yml");
  }

  /** Each build procedure comes from an entry found with its path. */
  lemma {:induction false} ProceduresFrom(scripts: seq<(Path, ParsedFsEntry)>, k: nat)
    requires k < |Procedures(scripts)|
    ensures exists i :: 0 <= i < |scripts| && scripts[i].0 == Procedures(scripts)[k].0
              && scripts[i].1 == ParsedFsEntry.BuildProcedure(Procedures(scripts)[k].1)
    decreases |scripts|
  {
    var rest := scripts[1..];
    var procs := Procedures(scripts);
    if scripts[0].1.BuildProcedure? && k == 0 {
      assert scripts[0].0 == procs[0].0;
    } else {
      var k' := if scripts[0].1.BuildProcedure? then k - 1 else k;
      assert procs[k] == Procedures(rest)[k'];
      ProceduresFrom(rest, k');
      var i :| 0 <= i < |rest| && rest[i].0 == Procedures(rest)[k'].0
                && rest[i].1 == ParsedFsEntry.BuildProcedure(Procedures(rest)[k'].1);
      assert scripts[i + 1] == rest[i];
    }
  }
}
