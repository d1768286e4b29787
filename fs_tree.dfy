/** The page tree (builder/src/fs_tree.rs): the source directory as loaded into memory, its parsed
    form, and lookups on it. Entry names are single path components. */
module FsTrees {
  import opened Wrappers
  import opened Strings
  import Procedure
  import Loader

  /** A loaded entry: file content or the directory's children. `created` is the time the entry
      was first committed, when known; the builder's `Index` value sorts by it. */
  datatype FsTree = FsTree(entryName: string, created: Option<nat>, child: FsChild)

  datatype FsChild = Content(text: string) | Children(entries: seq<FsTree>)

  datatype ParsedFsTree = ParsedFsTree(name: string, created: Option<nat>, content: ParsedFsEntry)

  datatype ParsedFsEntry =
    | Directory(children: seq<ParsedFsTree>)
    | TextFile(text: string)
    | BuildProcedure(procedure: Procedure.BuildProcedure)

  datatype ParsedFsTreeParseError =
    InvalidBuildProcedure(path: string, error: Procedure.BuildProcedureLoadError)

  // ---------------------------------------------------------------------------------------------
  // File-name extensions, as `Path::extension`, `Path::file_stem` and `PathBuf::set_extension`
  // see a single component

  /** The index of the last '.' in `s`, if any. */
  function LastDot(s: string): (r: Option<nat>)
    ensures r.Some? ==> r.value < |s| && s[r.value] == '.' && '.' !in s[r.value + 1..]
    ensures r.None? ==> '.' !in s
    decreases |s|
  {
    if s == [] then None
    else if s[|s| - 1] == '.' then Some(|s| - 1)
    else
      var r := LastDot(s[..|s| - 1]);
      assert s == s[..|s| - 1] + [s[|s| - 1]];
      assert r.Some? ==> s[r.value + 1..] == s[..|s| - 1][r.value + 1..] + [s[|s| - 1]];
      r
  }

  /** The component has a file name: it is neither empty, `.` nor `..`. */
  predicate HasFileName(name: string) { name != "" && name != "." && name != ".." }

  /** `Path::extension`: the text after the last dot, unless that dot starts the name. */
  function Extension(name: string): Option<string>
  {
    if !HasFileName(name) then None
    else match LastDot(name)
      case None => None
      case Some(i) => if i == 0 then None else Some(name[i + 1..])
  }

  /** `Path::file_stem`: the name without its extension. */
  function FileStem(name: string): string
  {
    match Extension(name)
    case None => name
    case Some(e) => name[..|name| - |e| - 1]
  }

  /** `PathBuf::set_extension` with a non-empty extension. */
  function SetExtension(name: string, ext: string): string
    requires ext != []
  {
    if !HasFileName(name) then name else FileStem(name) + "." + ext
  }

  /** The extension is the text after a dot that ends a non-empty stem and that the extension
      does not contain; each such split of a name is its extension. */
  lemma ExtensionMeaning(name: string, stem: string, ext: string)
    ensures Extension(name).Some? ==>
              && FileStem(name) != []
              && name == FileStem(name) + "." + Extension(name).value
              && '.' !in Extension(name).value
    ensures name == stem + "." + ext && stem != [] && '.' !in ext && name != ".." ==>
              Extension(name) == Some(ext) && FileStem(name) == stem
  {
    if Extension(name).Some? {
      var i := LastDot(name).value;
      assert name == name[..i] + "." + name[i + 1..];
    }
    if name == stem + "." + ext && stem != [] && '.' !in ext && name != ".." {
      var i := |stem|;
      assert name[i] == '.' && name[i + 1..] == ext;
      assert name[..|name| - |ext| - 1] == stem;
    }
  }

  /** Setting an extension on a named component gives it that extension and keeps its stem. */
  lemma SetExtensionMeaning(name: string, ext: string)
    requires HasFileName(name) && ext != [] && '.' !in ext
    ensures Extension(SetExtension(name, ext)) == Some(ext)
    ensures FileStem(SetExtension(name, ext)) == FileStem(name)
  {
    ExtensionMeaning(name, [], []);
    ExtensionMeaning(SetExtension(name, ext), FileStem(name), ext);
  }

  // ---------------------------------------------------------------------------------------------
  // FsTree::parse

  /** How `parse` turns one file's content into an entry: a `yml` extension marks a build
      procedure (the YAML library is the parameter `deserialize`), anything else is text. */
  function ParseFile(name: string, text: string,
                     deserialize: string -> Result<Loader.BuildFile, string>)
    : Result<ParsedFsEntry, ParsedFsTreeParseError>
  {
    if Extension(name) == Some("yml") then
      match Procedure.Load(text, deserialize)
      case Ok(procedure) => Ok(BuildProcedure(procedure))
      case Err(err) => Err(InvalidBuildProcedure(name, err))
    else Ok(TextFile(text))
  }

  function ParseTree(t: FsTree, deserialize: string -> Result<Loader.BuildFile, string>)
    : Result<ParsedFsTree, ParsedFsTreeParseError>
    decreases t
  {
    match t.child
    case Content(text) =>
      (match ParseFile(t.entryName, text, deserialize)
       case Err(e) => Err(e)
       case Ok(content) => Ok(ParsedFsTree(t.entryName, t.created, content)))
    case Children(entries) =>
      (match ParseChildren(entries, deserialize)
       case Err(e) => Err(e)
       case Ok(parsed) => Ok(ParsedFsTree(t.entryName, t.created, Directory(parsed))))
  }

  function ParseChildren(entries: seq<FsTree>, deserialize: string -> Result<Loader.BuildFile, string>)
    : Result<seq<ParsedFsTree>, ParsedFsTreeParseError>
    decreases entries
  {
    if entries == [] then Ok([])
    else
      match ParseTree(entries[0], deserialize)
      case Err(e) => Err(e)
      case Ok(first) => Prepend([first], ParseChildren(entries[1..], deserialize))
  }

  /** `FsTree::parse`, recursing into directories. */
  method Parse(t: FsTree, deserialize: string -> Result<Loader.BuildFile, string>)
    returns (r: Result<ParsedFsTree, ParsedFsTreeParseError>)
    ensures r == ParseTree(t, deserialize)
    decreases t
  {
    match t.child {
      case Content(text) =>
        var content := ParseFile(t.entryName, text, deserialize);
        if content.Err? {
          return Err(content.error);
        }
        return Ok(ParsedFsTree(t.entryName, t.created, content.value));
      case Children(children) =>
        var parsed := ParseEach(children, deserialize);
        if parsed.Err? {
          return Err(parsed.error);
        }
        return Ok(ParsedFsTree(t.entryName, t.created, Directory(parsed.value)));
    }
  }

  /** The loop of `parse` over a directory's children, stopping at the first failing child. */
  method ParseEach(children: seq<FsTree>, deserialize: string -> Result<Loader.BuildFile, string>)
    returns (r: Result<seq<ParsedFsTree>, ParsedFsTreeParseError>)
    ensures r == ParseChildren(children, deserialize)
    decreases children
  {
    var parsed: seq<ParsedFsTree> := [];
    var i := 0;
    assert children[i..] == children;
    PrependNothing(ParseChildren(children, deserialize));
    while i < |children|
      invariant 0 <= i <= |children|
      invariant ParseChildren(children, deserialize) == Prepend(parsed, ParseChildren(children[i..], deserialize))
    {
      var child := Parse(children[i], deserialize);
      assert children[i..][1..] == children[i + 1..];
      if child.Err? {
        return Err(child.error);
      }
      var tail := ParseChildren(children[i + 1..], deserialize);
      PrependTwice(parsed, [child.value], tail);
      parsed := parsed + [child.value];
      i := i + 1;
    }
    assert children[i..] == [];
    assert parsed + [] == parsed;
    return Ok(parsed);
  }

  /** Parsing keeps every name and creation time, turns directories into directories with as
      many children in the same order, and files into text or build procedures by extension;
      a directory fails exactly when a child does, with the first failing child's error. */
  lemma {:induction false} ParseMeaning(t: FsTree, deserialize: string -> Result<Loader.BuildFile, string>)
    ensures ParseTree(t, deserialize).Ok? ==>
      var p := ParseTree(t, deserialize).value;
      && p.name == t.entryName && p.created == t.created
      && (t.child.Children? <==> p.content.Directory?)
      && (t.child.Children? ==>
            && |p.content.children| == |t.child.entries|
            && forall i :: 0 <= i < |t.child.entries| ==>
                 ParseTree(t.child.entries[i], deserialize) == Ok(p.content.children[i]))
      && (t.child.Content? && Extension(t.entryName) != Some("yml") ==> p.content == TextFile(t.child.text))
      && (t.child.Content? && Extension(t.entryName) == Some("yml") ==>
            Procedure.Load(t.child.text, deserialize) == Ok(p.content.procedure))
    ensures t.child.Children? ==>
      (ParseTree(t, deserialize).Err? <==>
         exists i :: 0 <= i < |t.child.entries| && ParseTree(t.child.entries[i], deserialize).Err?)
    ensures t.child.Children? && ParseTree(t, deserialize).Err? ==>
      exists i :: 0 <= i < |t.child.entries|
        && ParseTree(t.child.entries[i], deserialize) == ParseTree(t, deserialize)
        && forall j :: 0 <= j < i ==> ParseTree(t.child.entries[j], deserialize).Ok?
    ensures t.child.Content? ==>
      (ParseTree(t, deserialize).Err? <==>
         Extension(t.entryName) == Some("yml") && Procedure.Load(t.child.text, deserialize).Err?)
    ensures t.child.Content? && ParseTree(t, deserialize).Err? ==>
      ParseTree(t, deserialize).error ==
        InvalidBuildProcedure(t.entryName, Procedure.Load(t.child.text, deserialize).error)
  {
    if t.child.Children? {
      ParseChildrenMeaning(t.child.entries, deserialize);
    }
  }

  lemma {:induction false} ParseChildrenMeaning(entries: seq<FsTree>,
                                                deserialize: string -> Result<Loader.BuildFile, string>)
    ensures ParseChildren(entries, deserialize).Ok? ==>
      && |ParseChildren(entries, deserialize).value| == |entries|
      && forall i :: 0 <= i < |entries| ==>
           ParseTree(entries[i], deserialize) == Ok(ParseChildren(entries, deserialize).value[i])
    ensures ParseChildren(entries, deserialize).Err? <==>
      exists i :: 0 <= i < |entries| && ParseTree(entries[i], deserialize).Err?
    ensures ParseChildren(entries, deserialize).Err? ==>
      exists i :: 0 <= i < |entries|
        && ParseTree(entries[i], deserialize).Err?
        && ParseTree(entries[i], deserialize).error == ParseChildren(entries, deserialize).error
        && forall j :: 0 <= j < i ==> ParseTree(entries[j], deserialize).Ok?
    decreases |entries|
  {
    if entries != [] {
      var rest := entries[1..];
      ParseChildrenMeaning(rest, deserialize);
      var r := ParseChildren(entries, deserialize);
      if ParseTree(entries[0], deserialize).Ok? {
        if r.Ok? {
          forall i | 0 <= i < |entries| ensures ParseTree(entries[i], deserialize) == Ok(r.value[i]) {
            if i > 0 { assert entries[i] == rest[i - 1]; }
          }
        } else {
          var i :| 0 <= i < |rest|
            && ParseTree(rest[i], deserialize).Err?
            && ParseTree(rest[i], deserialize).error == ParseChildren(rest, deserialize).error
            && forall j :: 0 <= j < i ==> ParseTree(rest[j], deserialize).Ok?;
          assert entries[i + 1] == rest[i];
          forall j | 0 <= j < i + 1 ensures ParseTree(entries[j], deserialize).Ok? {
            if j > 0 { assert entries[j] == rest[j - 1]; }
          }
        }
        if exists i :: 0 <= i < |entries| && ParseTree(entries[i], deserialize).Err? {
          var i :| 0 <= i < |entries| && ParseTree(entries[i], deserialize).Err?;
          assert rest[i - 1] == entries[i];
        }
      }
    }
  }

  // ---------------------------------------------------------------------------------------------
  // ParsedFsTree::filter

  /** A path relative to the tree's parent directory, one name per component. */
  type Path = seq<string>

  /** `filter(ext)`: every non-directory entry whose name has extension `ext`, with its path
      from the tree's parent, in depth-first child order. */
  function Filter(t: ParsedFsTree, ext: string): seq<(Path, ParsedFsEntry)>
    decreases t
  {
    match t.content
    case Directory(children) => FilterChildren(children, t.name, ext)
    case _ => if Extension(t.name) == Some(ext) then [([t.name], t.content)] else []
  }

  function FilterChildren(children: seq<ParsedFsTree>, dir: string, ext: string)
    : seq<(Path, ParsedFsEntry)>
    decreases children
  {
    if children == [] then []
    else Under(dir, Filter(children[0], ext)) + FilterChildren(children[1..], dir, ext)
  }

  /** `path.join(child_path)` on every result. */
  function Under(dir: string, found: seq<(Path, ParsedFsEntry)>): (r: seq<(Path, ParsedFsEntry)>)
    ensures |r| == |found|
    ensures forall k :: 0 <= k < |r| ==> r[k] == ([dir] + found[k].0, found[k].1)
  {
    seq(|found|, k requires 0 <= k < |found| => ([dir] + found[k].0, found[k].1))
  }

  /** `t` is an entry of the tree rooted at `root`, reached along `path` (which starts with
      `root`'s own name). */
  predicate EntryAt(root: ParsedFsTree, path: Path, t: ParsedFsTree)
    decreases root
  {
    |path| >= 1 && path[0] == root.name &&
    if |path| == 1 then t == root
    else root.content.Directory? &&
         exists c :: c in root.content.children && EntryAt(c, path[1..], t)
  }

  /** Every result of `filter` is a non-directory entry of the tree whose name has the
      extension asked for, reached along the reported path. */
  lemma {:induction false} FilterSound(t: ParsedFsTree, ext: string)
    ensures forall k :: 0 <= k < |Filter(t, ext)| ==>
      var (path, entry) := Filter(t, ext)[k];
      && |path| >= 1
      && !entry.Directory?
      && Extension(path[|path| - 1]) == Some(ext)
      && exists leaf :: EntryAt(t, path, leaf) && leaf.content == entry && leaf.name == path[|path| - 1]
    decreases t
  {
    if t.content.Directory? {
      FilterChildrenSound(t.content.children, t, ext);
    } else if Extension(t.name) == Some(ext) {
      assert EntryAt(t, [t.name], t);
    }
  }

  /** Every file under `t` whose name carries the extension is among the entries `filter`
      returns, under its path from `t`. */
  lemma {:induction false} FilterComplete(t: ParsedFsTree, path: Path, leaf: ParsedFsTree, ext: string)
    requires EntryAt(t, path, leaf) && !leaf.content.Directory? && Extension(leaf.name) == Some(ext)
    ensures (path, leaf.content) in Filter(t, ext)
    decreases t
  {
    if |path| == 1 {
      assert path == [t.name] && Filter(t, ext) == [([t.name], t.content)];
    } else {
      var c :| c in t.content.children && EntryAt(c, path[1..], leaf);
      FilterComplete(c, path[1..], leaf, ext);
      FilterChildrenComplete(t.content.children, t.name, c, (path[1..], leaf.content), ext);
      assert [t.name] + path[1..] == path;
    }
  }

  /** What `filter` finds under one child is found under the directory, behind its name. */
  lemma {:induction false} FilterChildrenComplete(children: seq<ParsedFsTree>, dir: string, c: ParsedFsTree,
                                                  x: (Path, ParsedFsEntry), ext: string)
    requires c in children && x in Filter(c, ext)
    ensures ([dir] + x.0, x.1) in FilterChildren(children, dir, ext)
    decreases children
  {
    var found := Filter(children[0], ext);
    if children[0] == c {
      var k :| 0 <= k < |found| && found[k] == x;
      assert Under(dir, found)[k] == ([dir] + x.0, x.1);
    } else {
      FilterChildrenComplete(children[1..], dir, c, x, ext);
    }
  }

  lemma {:induction false} FilterChildrenSound(children: seq<ParsedFsTree>, t: ParsedFsTree, ext: string)
    requires t.content.Directory? && forall c :: c in children ==> c in t.content.children
    ensures forall k :: 0 <= k < |FilterChildren(children, t.name, ext)| ==>
      var (path, entry) := FilterChildren(children, t.name, ext)[k];
      && |path| >= 1
      && !entry.Directory?
      && Extension(path[|path| - 1]) == Some(ext)
      && exists leaf :: EntryAt(t, path, leaf) && leaf.content == entry && leaf.name == path[|path| - 1]
    decreases children
  {
    if children != [] {
      var first := Under(t.name, Filter(children[0], ext));
      FilterSound(children[0], ext);
      FilterChildrenSound(children[1..], t, ext);
      var all := FilterChildren(children, t.name, ext);
      forall k | 0 <= k < |all|
        ensures var (path, entry) := all[k];
          && |path| >= 1
          && !entry.Directory?
          && Extension(path[|path| - 1]) == Some(ext)
          && exists leaf :: EntryAt(t, path, leaf) && leaf.content == entry && leaf.name == path[|path| - 1]
      {
        if k < |first| {
          var (sub, entry) := Filter(children[0], ext)[k];
          var leaf :| EntryAt(children[0], sub, leaf) && leaf.content == entry && leaf.name == sub[|sub| - 1];
          var path := [t.name] + sub;
          assert all[k] == (path, entry);
          assert path[1..] == sub;
          assert EntryAt(t, path, leaf);
        } else {
          assert all[k] == FilterChildren(children[1..], t.name, ext)[k - |first|];
        }
      }
    }
  }

  /** The concatenation of a list of lists. */
  function Flatten<T>(xss: seq<seq<T>>): seq<T>
    decreases |xss|
  {
    if xss == [] then [] else xss[0] + Flatten(xss[1..])
  }

  /** `filter` on a directory is its children's results, in child order, each path under the
      directory's name. */
  lemma FilterOfDirectory(t: ParsedFsTree, ext: string)
    requires t.content.Directory?
    ensures Filter(t, ext) == Flatten(Pieces(t.content.children, t.name, ext))
  {
    FilterChildrenFlatten(t.content.children, t.name, ext);
  }

  lemma {:induction false} FilterChildrenFlatten(children: seq<ParsedFsTree>, dir: string, ext: string)
    ensures FilterChildren(children, dir, ext) == Flatten(Pieces(children, dir, ext))
    decreases |children|
  {
    if children != [] {
      FilterChildrenFlatten(children[1..], dir, ext);
      assert Pieces(children, dir, ext)[1..] == Pieces(children[1..], dir, ext);
    }
  }

  /** Each child's own results, under the directory's name. */
  function Pieces(children: seq<ParsedFsTree>, dir: string, ext: string): (r: seq<seq<(Path, ParsedFsEntry)>>)
    ensures |r| == |children|
    ensures forall i :: 0 <= i < |children| ==> r[i] == Under(dir, Filter(children[i], ext))
  {
    seq(|children|, i requires 0 <= i < |children| => Under(dir, Filter(children[i], ext)))
  }

  // ---------------------------------------------------------------------------------------------
  // ParsedFsTree::get

  /** `splitn(2, '/')` when it yields two parts: the text before the first '/' and after it. */
  function SplitOnce(path: string, sep: char): (r: Option<(string, string)>)
    ensures r.None? <==> sep !in path
    ensures r.Some? ==> path == r.value.0 + [sep] + r.value.1 && sep !in r.value.0
    decreases |path|
  {
    if path == [] then None
    else if path[0] == sep then Some(([], path[1..]))
    else match SplitOnce(path[1..], sep)
      case None => None
      case Some((before, after)) => Some(([path[0]] + before, after))
  }

  /** `get(path)`: the entry whose name is the path; a directory named by the part before the
      first '/' looks the rest up in its children and answers with the first hit. */
  function Get(t: ParsedFsTree, path: string): Option<ParsedFsEntry>
    decreases t
  {
    if t.name == path then Some(t.content)
    else match t.content
      case Directory(children) =>
        (match SplitOnce(path, '/')
         case Some((dirName, rest)) => if t.name == dirName then FirstHit(children, rest) else None
         case None => None)
      case _ => None
  }

  function FirstHit(children: seq<ParsedFsTree>, path: string): Option<ParsedFsEntry>
    decreases children
  {
    if children == [] then None
    else match Get(children[0], path)
      case Some(e) => Some(e)
      case None => FirstHit(children[1..], path)
  }

  /** `ParsedFsTree::get`, with its early return from the loop over the children. */
  method Lookup(t: ParsedFsTree, path: string) returns (r: Option<ParsedFsEntry>)
    ensures r == Get(t, path)
    decreases t
  {
    if t.name == path {
      return Some(t.content);
    }
    if !t.content.Directory? {
      return None;
    }
    var parts := SplitOnce(path, '/');
    if parts.Some? && t.name == parts.value.0 {
      var rest := parts.value.1;
      var children := t.content.children;
      var i := 0;
      assert children[i..] == children;
      while i < |children|
        invariant 0 <= i <= |children|
        invariant FirstHit(children, rest) == FirstHit(children[i..], rest)
      {
        assert children[i..][1..] == children[i + 1..];
        var e := Lookup(children[i], rest);
        if e.Some? {
          return e;
        }
        i := i + 1;
      }
    }
    return None;
  }

  /** The first hit is the entry found by the first child that finds one. */
  lemma {:induction false} FirstHitMeaning(children: seq<ParsedFsTree>, path: string)
    ensures FirstHit(children, path).None? <==> forall i :: 0 <= i < |children| ==> Get(children[i], path).None?
    ensures FirstHit(children, path).Some? ==>
      exists i :: 0 <= i < |children| && Get(children[i], path) == FirstHit(children, path)
        && forall j :: 0 <= j < i ==> Get(children[j], path).None?
    decreases |children|
  {
    if children != [] {
      var rest := children[1..];
      FirstHitMeaning(rest, path);
      if Get(children[0], path).None? {
        if FirstHit(rest, path).Some? {
          var i :| 0 <= i < |rest| && Get(rest[i], path) == FirstHit(rest, path)
            && forall j :: 0 <= j < i ==> Get(rest[j], path).None?;
          assert children[i + 1] == rest[i];
          forall j | 0 <= j < i + 1 ensures Get(children[j], path).None? {
            if j > 0 { assert children[j] == rest[j - 1]; }
          }
        } else {
          forall i | 0 <= i < |children| ensures Get(children[i], path).None? {
            if i > 0 { assert children[i] == rest[i - 1]; }
          }
        }
      }
    }
  }

  /** Other than by its own name, an entry is found only inside a directory, along a path made
      of the directory's name, a '/', and a rest that the first child finding anything finds. */
  lemma GetDescends(t: ParsedFsTree, path: string)
    requires t.name != path && Get(t, path).Some?
    ensures t.content.Directory? && '/' !in t.name
    ensures |t.name| < |path| && path[..|t.name| + 1] == t.name + "/"
    ensures
      var rest := path[|t.name| + 1..];
      exists i :: 0 <= i < |t.content.children|
        && Get(t.content.children[i], rest) == Get(t, path)
        && forall j :: 0 <= j < i ==> Get(t.content.children[j], rest).None?
  {
    var (dirName, rest) := SplitOnce(path, '/').value;
    assert path[..|t.name| + 1] == t.name + "/" && path[|t.name| + 1..] == rest;
    FirstHitMeaning(t.content.children, rest);
  }

  /** Names as a file system gives them: non-empty, without '/', distinct among siblings. */
  predicate WellNamed(t: ParsedFsTree)
    decreases t
  {
    && t.name != [] && '/' !in t.name
    && (t.content.Directory? ==>
          && (forall i, j :: 0 <= i < j < |t.content.children| ==>
                t.content.children[i].name != t.content.children[j].name)
          && forall c :: c in t.content.children ==> WellNamed(c))
  }

  /** A path of names joined with '/'. */
  function JoinPath(path: Path): string
  {
    Join(path, '/')
  }

  /** In a well-named tree, looking up the joined path of an entry finds that entry: `get` is
      the inverse of the paths `filter` reports. */
  lemma {:induction false} GetEntryAt(root: ParsedFsTree, path: Path, t: ParsedFsTree)
    requires WellNamed(root) && EntryAt(root, path, t)
    ensures Get(root, JoinPath(path)) == Some(t.content)
    decreases root
  {
    if |path| > 1 {
      var tail := path[1..];
      var c :| c in root.content.children && EntryAt(c, tail, t);
      var p := JoinPath(path);
      var rest := JoinPath(tail);
      assert path == [path[0]] + tail;
      assert p == root.name + "/" + rest;
      assert root.name != p by {
        assert |p| > |root.name|;
      }
      SplitAfterName(root.name, rest);
      GetEntryAt(c, tail, t);
      var children := root.content.children;
      var k :| 0 <= k < |children| && children[k] == c;
      EntryAtNames(c, tail, t);
      forall j | 0 <= j < k ensures Get(children[j], rest).None? {
        assert children[j].name != c.name;
        assert children[j] in children;
        GetMissesOtherName(children[j], tail);
      }
      FirstHitAt(children, rest, k);
    }
  }

  /** The names along a path in a well-named tree hold no '/'. */
  lemma {:induction false} EntryAtNames(root: ParsedFsTree, path: Path, t: ParsedFsTree)
    requires WellNamed(root) && EntryAt(root, path, t)
    ensures forall k :: 0 <= k < |path| ==> '/' !in path[k]
    decreases root
  {
    if |path| > 1 {
      var c :| c in root.content.children && EntryAt(c, path[1..], t);
      EntryAtNames(c, path[1..], t);
      forall k | 0 <= k < |path| ensures '/' !in path[k] {
        if k > 0 { assert path[k] == path[1..][k - 1]; }
      }
    }
  }

  lemma {:induction false} SplitAfterName(name: string, rest: string)
    requires '/' !in name
    ensures SplitOnce(name + "/" + rest, '/') == Some((name, rest))
    decreases |name|
  {
    var p := name + "/" + rest;
    if name == [] {
      assert p[1..] == rest;
    } else {
      assert p[1..] == name[1..] + "/" + rest;
      assert name[0] in name;
      SplitAfterName(name[1..], rest);
      assert [name[0]] + name[1..] == name;
    }
  }

  /** An entry looked up along a path that starts with some other name answers nothing. */
  lemma GetMissesOtherName(c: ParsedFsTree, tail: Path)
    requires WellNamed(c) && |tail| >= 1 && forall k :: 0 <= k < |tail| ==> '/' !in tail[k]
    requires tail[0] != c.name
    ensures Get(c, JoinPath(tail)).None?
  {
    var p := JoinPath(tail);
    if c.content.Directory? && SplitOnce(p, '/').Some? {
      var (dirName, rest) := SplitOnce(p, '/').value;
      if |tail| > 1 {
        assert tail == [tail[0]] + tail[1..];
        SplitAfterName(tail[0], JoinPath(tail[1..]));
      }
    }
  }

  lemma FirstHitAt(children: seq<ParsedFsTree>, path: string, k: nat)
    requires k < |children|
    requires forall j :: 0 <= j < k ==> Get(children[j], path).None?
    ensures FirstHit(children, path) == Get(children[k], path) || (Get(children[k], path).None?)
    ensures Get(children[k], path).Some? ==> FirstHit(children, path) == Get(children[k], path)
    decreases k
  {
    if k > 0 {
      assert children[1..][k - 1] == children[k];
      FirstHitAt(children[1..], path, k - 1);
    }
  }
}
