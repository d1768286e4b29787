/** The shape a `.yml` build file has once the YAML library has deserialised it (the private
    `loader` module of builder/src/builder.rs). A step is the deserialised mapping, given in the
    order in which its hash map is iterated. */
module Loader {

  /** Rust's `u64`. */
  type u64 = x: nat | x < 0x1_0000_0000_0000_0000

  datatype ValueTyped =
    | UnixTimestamp(value: u64)
    | Md(path: string)
    | Text(path: string)
    | Index(path: string, itemTemplate: string)

  /** `None` is YAML's null: the marker of a step's name. */
  datatype Value =
    | Tagged(inner: ValueTyped)
    | Text(text: string)
    | Int(number: u64)
    | None

  datatype BuildFile = BuildFile(template: string, steps: seq<seq<(string, Value)>>)
}

/** Build procedures (builder/src/builder.rs): the recipe of one page, and its conversion from the
    deserialised build file (`BuildProcedure::new`). */
module Procedure {
  import opened Wrappers
  import Loader

  datatype Value =
    | Text(text: string)
    | Int(number: Loader.u64)
    | UnixTimestamp(value: Loader.u64)
    | Md(path: string)
    | TextFile(path: string)
    /** `itemTemplate` names a component. */
    | Index(path: string, itemTemplate: string)

  datatype Step = Step(name: Option<string>, vars: map<string, Value>)

  datatype BuildProcedure = BuildProcedure(template: string, steps: seq<Step>)

  /** `FormatError` carries the YAML library's message. */
  datatype BuildProcedureLoadError = FormatError(message: string) | UnexpectNoneVariableValue

  type Entry = (string, Loader.Value)

  /** The value conversion of `BuildProcedure::new`; a null value is not a value. */
  function FromLoaded(v: Loader.Value): Value
    requires !v.None?
  {
    match v
    case Tagged(inner) =>
      (match inner
       case UnixTimestamp(value) => UnixTimestamp(value)
       case Md(path) => Md(path)
       case Text(path) => TextFile(path)
       case Index(path, item) => Index(path, item))
    case Text(txt) => Text(txt)
    case Int(n) => Int(n)
  }

  /** The YAML a value is written as. */
  function ToLoaded(v: Value): Loader.Value
  {
    match v
    case Text(txt) => Loader.Value.Text(txt)
    case Int(n) => Loader.Int(n)
    case UnixTimestamp(value) => Loader.Tagged(Loader.UnixTimestamp(value))
    case Md(path) => Loader.Tagged(Loader.Md(path))
    case TextFile(path) => Loader.Tagged(Loader.ValueTyped.Text(path))
    case Index(path, item) => Loader.Tagged(Loader.Index(path, item))
  }

  /** The conversion is tag for tag: every non-null YAML value converts, and back, without loss. */
  lemma TagForTag(v: Value, l: Loader.Value)
    ensures !ToLoaded(v).None? && FromLoaded(ToLoaded(v)) == v
    ensures !l.None? ==> ToLoaded(FromLoaded(l)) == l
  {
  }

  // ---------------------------------------------------------------------------------------------
  // Steps

  /** The inner loop of `BuildProcedure::new` from the state (`name`, `vars`) on: the first null
      value names the step, a later one is an error, every other entry is inserted. */
  function ConvertEntries(entries: seq<Entry>, name: Option<string>, vars: map<string, Value>)
    : Result<Step, BuildProcedureLoadError>
    decreases |entries|
  {
    if entries == [] then Ok(Step(name, vars))
    else
      var (key, val) := entries[0];
      if name.None? && val.None? then ConvertEntries(entries[1..], Some(key), vars)
      else if val.None? then Err(UnexpectNoneVariableValue)
      else ConvertEntries(entries[1..], name, vars[key := FromLoaded(val)])
  }

  function ConvertStep(entries: seq<Entry>): Result<Step, BuildProcedureLoadError>
  {
    ConvertEntries(entries, None, map[])
  }

  /** The outer loop of `BuildProcedure::new`: every step in order; the first failing one ends it. */
  function ConvertSteps(steps: seq<seq<Entry>>): Result<seq<Step>, BuildProcedureLoadError>
    decreases |steps|
  {
    if steps == [] then Ok([])
    else
      match ConvertStep(steps[0])
      case Err(e) => Err(e)
      case Ok(step) =>
        match ConvertSteps(steps[1..])
        case Err(e) => Err(e)
        case Ok(rest) => Ok([step] + rest)
  }

  function FromBuildFile(file: Loader.BuildFile): Result<BuildProcedure, BuildProcedureLoadError>
  {
    match ConvertSteps(file.steps)
    case Err(e) => Err(e)
    case Ok(steps) => Ok(BuildProcedure(file.template, steps))
  }

  /** `BuildProcedure::new`: deserialise (the YAML library is the parameter `deserialize`), then
      convert. */
  function Load(source: string, deserialize: string -> Result<Loader.BuildFile, string>)
    : Result<BuildProcedure, BuildProcedureLoadError>
  {
    match deserialize(source)
    case Err(message) => Err(FormatError(message))
    case Ok(file) => FromBuildFile(file)
  }

  /** `BuildProcedure::new`, step by step as the source does it. */
  method New(source: string, deserialize: string -> Result<Loader.BuildFile, string>)
    returns (r: Result<BuildProcedure, BuildProcedureLoadError>)
    ensures r == Load(source, deserialize)
  {
    var deserialized := deserialize(source);
    if deserialized.Err? {
      return Err(FormatError(deserialized.error));
    }
    var file := deserialized.value;
    var steps: seq<Step> := [];
    var i := 0;
    assert file.steps[i..] == file.steps;
    assert Prepend(steps, ConvertSteps(file.steps)) == ConvertSteps(file.steps) by {
      if ConvertSteps(file.steps).Ok? { assert steps + ConvertSteps(file.steps).value == ConvertSteps(file.steps).value; }
    }
    while i < |file.steps|
      invariant 0 <= i <= |file.steps|
      invariant ConvertSteps(file.steps) == Prepend(steps, ConvertSteps(file.steps[i..]))
    {
      var oldStep := file.steps[i];
      var name: Option<string> := None;
      var vars: map<string, Value> := map[];
      var j := 0;
      assert oldStep[j..] == oldStep;
      while j < |oldStep|
        invariant 0 <= j <= |oldStep|
        invariant ConvertStep(oldStep) == ConvertEntries(oldStep[j..], name, vars)
      {
        var (key, val) := oldStep[j];
        assert oldStep[j..][1..] == oldStep[j + 1..];
        if name.None? && val.None? {
          name := Some(key);
          j := j + 1;
          continue;
        }
        if val.None? {
          assert ConvertSteps(file.steps[i..]) == Err(UnexpectNoneVariableValue);
          return Err(UnexpectNoneVariableValue);
        }
        vars := vars[key := FromLoaded(val)];
        j := j + 1;
      }
      assert oldStep[j..] == [];
      assert file.steps[i..][1..] == file.steps[i + 1..];
      var tail := ConvertSteps(file.steps[i + 1..]);
      assert ConvertSteps(file.steps[i..]) == Prepend([Step(name, vars)], tail);
      assert Prepend(steps, Prepend([Step(name, vars)], tail)) == Prepend(steps + [Step(name, vars)], tail) by {
        if tail.Ok? { assert steps + ([Step(name, vars)] + tail.value) == steps + [Step(name, vars)] + tail.value; }
      }
      steps := steps + [Step(name, vars)];
      i := i + 1;
    }
    assert file.steps[i..] == [];
    assert steps + [] == steps;
    return Ok(BuildProcedure(file.template, steps));
  }

  // ---------------------------------------------------------------------------------------------
  // What the conversion promises

  function NullCount(entries: seq<Entry>): nat
    decreases |entries|
  {
    if entries == [] then 0 else (if entries[0].1.None? then 1 else 0) + NullCount(entries[1..])
  }

  /** The key of the first null-valued entry. */
  function FirstNullKey(entries: seq<Entry>): Option<string>
    decreases |entries|
  {
    if entries == [] then None
    else if entries[0].1.None? then Some(entries[0].0)
    else FirstNullKey(entries[1..])
  }

  /** The variables the non-null entries bind, a later entry overriding an earlier one. */
  function Bound(entries: seq<Entry>): map<string, Value>
    decreases |entries|
  {
    if entries == [] then map[]
    else
      var rest := Bound(entries[1..]);
      if entries[0].1.None? || entries[0].0 in rest then rest
      else rest[entries[0].0 := FromLoaded(entries[0].1)]
  }

  predicate DistinctKeys(entries: seq<Entry>)
  {
    forall i, j :: 0 <= i < j < |entries| ==> entries[i].0 != entries[j].0
  }

  lemma {:induction false} ConvertEntriesMeaning(entries: seq<Entry>, name: Option<string>,
                                                 vars: map<string, Value>)
    ensures ConvertEntries(entries, name, vars).Ok? <==>
              NullCount(entries) == 0 || (name.None? && NullCount(entries) == 1)
    ensures ConvertEntries(entries, name, vars).Ok? ==>
              && ConvertEntries(entries, name, vars).value.vars == vars + Bound(entries)
              && ConvertEntries(entries, name, vars).value.name ==
                 (if name.Some? then name else FirstNullKey(entries))
    decreases |entries|
  {
    if entries != [] {
      var (key, val) := entries[0];
      var rest := entries[1..];
      if name.None? && val.None? {
        ConvertEntriesMeaning(rest, Some(key), vars);
      } else if val.None? {
      } else {
        ConvertEntriesMeaning(rest, name, vars[key := FromLoaded(val)]);
        var b := Bound(rest);
        if ConvertEntries(entries, name, vars).Ok? {
          assert vars[key := FromLoaded(val)] + b == vars + Bound(entries);
        }
      }
    }
  }

  /** Without two null values a step converts; with two it fails. The first null-valued key names
      the step; every other entry is a variable. */
  lemma ConvertStepMeaning(entries: seq<Entry>)
    ensures ConvertStep(entries).Ok? <==> NullCount(entries) <= 1
    ensures ConvertStep(entries).Ok? ==>
              ConvertStep(entries).value == Step(FirstNullKey(entries), Bound(entries))
  {
    ConvertEntriesMeaning(entries, None, map[]);
    if ConvertStep(entries).Ok? {
      assert map[] + Bound(entries) == Bound(entries);
    }
  }

  lemma {:induction false} BoundMeaning(entries: seq<Entry>)
    requires DistinctKeys(entries)
    ensures forall j :: 0 <= j < |entries| && !entries[j].1.None? ==>
              entries[j].0 in Bound(entries) && Bound(entries)[entries[j].0] == FromLoaded(entries[j].1)
    ensures forall k :: k in Bound(entries) ==>
              exists j :: 0 <= j < |entries| && entries[j].0 == k && !entries[j].1.None?
    decreases |entries|
  {
    if entries != [] {
      var rest := entries[1..];
      assert DistinctKeys(rest) by {
        forall i, j | 0 <= i < j < |rest| ensures rest[i].0 != rest[j].0 {
          assert rest[i] == entries[i + 1] && rest[j] == entries[j + 1];
        }
      }
      BoundMeaning(rest);
      assert entries[0].0 !in Bound(rest);
      forall k | k in Bound(entries)
        ensures exists j :: 0 <= j < |entries| && entries[j].0 == k && !entries[j].1.None?
      {
        if k in Bound(rest) {
          var j :| 0 <= j < |rest| && rest[j].0 == k && !rest[j].1.None?;
          assert entries[j + 1] == rest[j];
        }
      }
      forall j | 0 <= j < |entries| && !entries[j].1.None?
        ensures entries[j].0 in Bound(entries) && Bound(entries)[entries[j].0] == FromLoaded(entries[j].1)
      {
        if j > 0 {
          assert entries[j] == rest[j - 1];
          assert entries[j].0 != entries[0].0;
        }
      }
    }
  }

  lemma {:induction false} FirstNullKeyIsNull(entries: seq<Entry>)
    ensures FirstNullKey(entries).Some? <==> NullCount(entries) > 0
    ensures FirstNullKey(entries).Some? ==>
              exists j :: 0 <= j < |entries| && entries[j] == (FirstNullKey(entries).value, Loader.None)
    decreases |entries|
  {
    if entries != [] && !entries[0].1.None? {
      FirstNullKeyIsNull(entries[1..]);
      if FirstNullKey(entries).Some? {
        var j :| 0 <= j < |entries[1..]| && entries[1..][j] == (FirstNullKey(entries).value, Loader.None);
        assert entries[j + 1] == entries[1..][j];
      }
    }
  }

  /** For a step whose keys are distinct (as a mapping's are), in whatever order they are iterated:
      it converts iff at most one value is null; the null-valued key, if any, is the name and is
      not a variable; every other key is a variable bound to its converted value, and nothing
      else is. */
  lemma StepConversion(entries: seq<Entry>)
    requires DistinctKeys(entries)
    ensures ConvertStep(entries).Ok? <==> NullCount(entries) <= 1
    ensures ConvertStep(entries).Ok? ==>
      var step := ConvertStep(entries).value;
      && (step.name.None? <==> NullCount(entries) == 0)
      && (step.name.Some? ==>
            && (exists j :: 0 <= j < |entries| && entries[j] == (step.name.value, Loader.None))
            && step.name.value !in step.vars)
      && (forall j :: 0 <= j < |entries| && !entries[j].1.None? ==>
            entries[j].0 in step.vars && step.vars[entries[j].0] == FromLoaded(entries[j].1))
      && (forall k :: k in step.vars ==>
            exists j :: 0 <= j < |entries| && entries[j].0 == k && !entries[j].1.None?)
  {
    ConvertStepMeaning(entries);
    BoundMeaning(entries);
    FirstNullKeyIsNull(entries);
    if ConvertStep(entries).Ok? {
      var step := ConvertStep(entries).value;
      if step.name.Some? {
        var j :| 0 <= j < |entries| && entries[j] == (step.name.value, Loader.None);
      }
    }
  }

  lemma {:induction false} ConvertStepsMeaning(steps: seq<seq<Entry>>)
    ensures ConvertSteps(steps).Err? <==> exists i :: 0 <= i < |steps| && ConvertStep(steps[i]).Err?
    ensures ConvertSteps(steps).Ok? ==>
              && |ConvertSteps(steps).value| == |steps|
              && forall i :: 0 <= i < |steps| ==> ConvertStep(steps[i]) == Ok(ConvertSteps(steps).value[i])
    decreases |steps|
  {
    if steps != [] {
      ConvertStepsMeaning(steps[1..]);
      if ConvertStep(steps[0]).Ok? && ConvertSteps(steps[1..]).Ok? {
        var all := ConvertSteps(steps).value;
        forall i | 0 <= i < |steps| ensures ConvertStep(steps[i]) == Ok(all[i]) {
          if i > 0 { assert steps[i] == steps[1..][i - 1]; }
        }
      }
      if ConvertSteps(steps[1..]).Err? {
        var i :| 0 <= i < |steps[1..]| && ConvertStep(steps[1..][i]).Err?;
        assert steps[i + 1] == steps[1..][i];
      }
      if ConvertSteps(steps).Ok? {
        forall i | 0 <= i < |steps| ensures ConvertStep(steps[i]).Ok? {
          if i > 0 { assert steps[i] == steps[1..][i - 1]; }
        }
      }
    }
  }

  /** Loading keeps the template and yields exactly one step per step of the file, in the file's
      order; it fails with `UnexpectNoneVariableValue` exactly when some step has two null values. */
  lemma BuildFileConversion(file: Loader.BuildFile)
    ensures FromBuildFile(file).Err? <==> exists i :: 0 <= i < |file.steps| && NullCount(file.steps[i]) >= 2
    ensures FromBuildFile(file).Err? ==> FromBuildFile(file).error == UnexpectNoneVariableValue
    ensures FromBuildFile(file).Ok? ==>
              && FromBuildFile(file).value.template == file.template
              && |FromBuildFile(file).value.steps| == |file.steps|
              && forall i :: 0 <= i < |file.steps| ==>
                   FromBuildFile(file).value.steps[i] == Step(FirstNullKey(file.steps[i]), Bound(file.steps[i]))
  {
    ConvertStepsMeaning(file.steps);
    forall i | 0 <= i < |file.steps| ensures ConvertStep(file.steps[i]).Ok? <==> NullCount(file.steps[i]) <= 1 {
      ConvertStepMeaning(file.steps[i]);
    }
    if FromBuildFile(file).Ok? {
      forall i | 0 <= i < |file.steps|
        ensures FromBuildFile(file).value.steps[i] == Step(FirstNullKey(file.steps[i]), Bound(file.steps[i]))
      {
        ConvertStepMeaning(file.steps[i]);
      }
    }
    if FromBuildFile(file).Err? {
      ConvertOnlyFailsOnNull(file.steps);
    }
  }

  lemma {:induction false} ConvertOnlyFailsOnNull(steps: seq<seq<Entry>>)
    ensures ConvertSteps(steps).Err? ==> ConvertSteps(steps).error == UnexpectNoneVariableValue
    decreases |steps|
  {
    if steps != [] {
      ConvertEntriesError(steps[0], None, map[]);
      ConvertOnlyFailsOnNull(steps[1..]);
    }
  }

  lemma {:induction false} ConvertEntriesError(entries: seq<Entry>, name: Option<string>, vars: map<string, Value>)
    ensures ConvertEntries(entries, name, vars).Err? ==>
              ConvertEntries(entries, name, vars).error == UnexpectNoneVariableValue
    decreases |entries|
  {
    if entries != [] {
      var (key, val) := entries[0];
      if name.None? && val.None? {
        ConvertEntriesError(entries[1..], Some(key), vars);
      } else if !val.None? {
        ConvertEntriesError(entries[1..], name, vars[key := FromLoaded(val)]);
      }
    }
  }

  /** The sample blog page of the builder's own test: two named steps, the first binding two
      texts, the second a text, a Unix timestamp and a Markdown file. */
  lemma DecodesSampleBlogTemplate()
    ensures
      var file := Loader.BuildFile("base-page.html", [
        [("Setup blog template", Loader.None),
         ("title", Loader.Value.Text("How many lines of code are in Android?")),
         ("content", Loader.Value.Text("{{ components/blog-entry }}"))],
        [("Fill data", Loader.None),
         ("description", Loader.Value.Text("Here is how I found out that the AOSP has 2.5 million lines of code.")),
         ("timestamp", Loader.Tagged(Loader.UnixTimestamp(1704204000))),
         ("text", Loader.Tagged(Loader.Md("blog/size-aosp.blog")))]]);
      FromBuildFile(file) == Ok(BuildProcedure("base-page.html", [
        Step(Some("Setup blog template"), map[
          "title" := Text("How many lines of code are in Android?"),
          "content" := Text("{{ components/blog-entry }}")]),
        Step(Some("Fill data"), map[
          "description" := Text("Here is how I found out that the AOSP has 2.5 million lines of code."),
          "timestamp" := UnixTimestamp(1704204000),
          "text" := Md("blog/size-aosp.blog")])]))
  {
    var first: seq<Entry> := [
      ("Setup blog template", Loader.None),
      ("title", Loader.Value.Text("How many lines of code are in Android?")),
      ("content", Loader.Value.Text("{{ components/blog-entry }}"))];
    var second: seq<Entry> := [
      ("Fill data", Loader.None),
      ("description", Loader.Value.Text("Here is how I found out that the AOSP has 2.5 million lines of code.")),
      ("timestamp", Loader.Tagged(Loader.UnixTimestamp(1704204000))),
      ("text", Loader.Tagged(Loader.Md("blog/size-aosp.blog")))];
    var s1 := Step(Some("Setup blog template"), map[
      "title" := Text("How many lines of code are in Android?"),
      "content" := Text("{{ components/blog-entry }}")]);
    var s2 := Step(Some("Fill data"), map[
      "description" := Text("Here is how I found out that the AOSP has 2.5 million lines of code."),
      "timestamp" := UnixTimestamp(1704204000),
      "text" := Md("blog/size-aosp.blog")]);
    assert first[1..][1..][1..] == [];
    assert ConvertStep(first) == Ok(s1);
    assert second[1..][1..][1..][1..] == [];
    assert ConvertStep(second) == Ok(s2);
    assert [second][1..] == [];
    assert ConvertSteps([]) == Ok([]);
    assert [s2] + [] == [s2];
    assert ConvertSteps([second]) == Ok([s2]);
    assert [first, second][0] == first && [first, second][1..] == [second];
    assert [s1] + [s2] == [s1, s2];
    assert ConvertSteps([first, second]) == Ok([s1, s2]);
  }
}
