/** The sitemap (builder/src/sitemapper.rs): a `<urlset>` with one `<url>` per page, each with
    its address and the day the page content last changed, which is remembered between runs in
    the file `page-modifications` as lines `<hash>,<milliseconds>`.

    Hashing the page content, the clock, reading and writing the file, and calendar formatting
    are outside this model: the content hash, the current time, the file's text and the
    milliseconds-to-day conversion are parameters. */
module SiteMapper {
  import opened Wrappers
  import opened Strings
  import Loader
  import Semantics

  // ---------------------------------------------------------------------------------------------
  // Addresses

  /** The site root as `new` stores it: `https://` in front unless it starts with `http`, and a
      trailing `/`. */
  function NormalizeRoot(root: string): string
  {
    var withScheme := if IsPrefix("http", root) then root else "https://" + root;
    if IsSuffix("/", withScheme) then withScheme else withScheme + "/"
  }

  /** The stored root starts with `http`, ends with `/` and holds the given root right after an
      added scheme, if any; a root that already has both is kept, so normalising twice changes
      nothing. */
  lemma NormalizeRootMeaning(root: string)
    ensures IsPrefix("http", NormalizeRoot(root)) && IsSuffix("/", NormalizeRoot(root))
    ensures IsPrefix(root, NormalizeRoot(root)) || IsPrefix("https://" + root, NormalizeRoot(root))
    ensures |NormalizeRoot(root)| <= |root| + 9
    ensures IsPrefix("http", root) && IsSuffix("/", root) ==> NormalizeRoot(root) == root
    ensures NormalizeRoot(NormalizeRoot(root)) == NormalizeRoot(root)
  {
    var withScheme := if IsPrefix("http", root) then root else "https://" + root;
    assert IsPrefix("http", withScheme) by {
      if !IsPrefix("http", root) { assert withScheme[..4] == "http"; }
    }
    var n := NormalizeRoot(root);
    if !IsSuffix("/", withScheme) {
      assert n[..|withScheme|] == withScheme;
      assert n[..4] == withScheme[..4];
      assert n[|n| - 1..] == "/";
    }
  }

  /** The root is already complete on its own: `https://` is itself a root. */
  lemma NormalizeEmptyRoot()
    ensures NormalizeRoot("") == "https://"
  {
    assert !IsPrefix("http", "");
    assert IsSuffix("/", "https://") by { assert "https://"[7..] == "/"; }
  }

  /** The address `add` records for a page: one leading `/` and one trailing `index.html`
      removed, after the root. */
  function Loc(root: string, path: string): string
  {
    var relative := match StripPrefix(path, "/") case Some(p) => p case None => path;
    var page := match StripSuffix(relative, "index.html") case Some(p) => p case None => relative;
    root + page
  }

  /** A directory's index page is addressed by the directory, with or without a leading `/`;
      another page keeps its path. */
  lemma LocMeaning(root: string, dir: string, path: string)
    requires !IsPrefix("/", dir)
    ensures Loc(root, dir + "index.html") == root + dir
    ensures Loc(root, "/" + dir + "index.html") == root + dir
    ensures !IsPrefix("/", path) && !IsSuffix("index.html", path) ==> Loc(root, path) == root + path
    ensures IsPrefix(root, Loc(root, path))
  {
    var index := dir + "index.html";
    assert IsSuffix("index.html", index) by { assert index[|index| - 10..] == "index.html"; }
    assert index[..|index| - 10] == dir;
    assert !IsPrefix("/", index) by {
      if dir != [] { assert index[..1] == dir[..1]; } else { assert index[..1] == "i"; }
    }
    var rooted := "/" + dir + "index.html";
    assert rooted[..1] == "/" && rooted[1..] == index;
  }

  // ---------------------------------------------------------------------------------------------
  // The XML

  datatype SiteMapEntry = SiteMapEntry(loc: string, lastmod: string, priority: Option<string>)

  /** `SiteMapEntry::build`. */
  function Render(e: SiteMapEntry): string
  {
    var head := "<url><loc>" + e.loc + "</loc><lastmod>" + e.lastmod + "</lastmod>";
    match e.priority
    case Some(p) => head + "<priority>" + p + "</priority></url>"
    case None => head + "</url>"
  }

  function RenderAll(entries: seq<SiteMapEntry>): string
    decreases |entries|
  {
    if entries == [] then "" else Render(entries[0]) + RenderAll(entries[1..])
  }

  /** The document `SiteMapBuilder::build` returns for the given entries. */
  function UrlSet(entries: seq<SiteMapEntry>): string
  {
    "<urlset>" + RenderAll(entries) + "</urlset>"
  }

  lemma {:induction false} RenderAllAppend(entries: seq<SiteMapEntry>, e: SiteMapEntry)
    ensures RenderAll(entries + [e]) == RenderAll(entries) + Render(e)
    decreases |entries|
  {
    if entries == [] {
      assert [] + [e] == [e] && [e][1..] == [];
    } else {
      assert (entries + [e])[1..] == entries[1..] + [e];
      RenderAllAppend(entries[1..], e);
    }
  }

  /** Adding a page inserts its `<url>` element right before the closing `</urlset>`. */
  lemma UrlSetAppend(entries: seq<SiteMapEntry>, e: SiteMapEntry)
    ensures UrlSet(entries + [e]) == "<urlset>" + RenderAll(entries) + Render(e) + "</urlset>"
  {
    RenderAllAppend(entries, e);
  }

  /** An entry added by `add` has no priority: its element holds exactly its address and day. */
  lemma RenderWithoutPriority(loc: string, lastmod: string)
    ensures Render(SiteMapEntry(loc, lastmod, None)) ==
              "<url><loc>" + loc + "</loc><lastmod>" + lastmod + "</lastmod></url>"
  {
  }

  /** Adding a page without priority to a sitemap puts `<url><loc>…</loc><lastmod>…</lastmod></url>`
      with its address and day in front of the closing `</urlset>`, and leaves the text before
      it as it was. */
  lemma UrlSetAddPage(entries: seq<SiteMapEntry>, loc: string, lastmod: string)
    ensures
      var before := UrlSet(entries);
      && |before| >= 9 && before[|before| - 9..] == "</urlset>"
      && UrlSet(entries + [SiteMapEntry(loc, lastmod, None)]) ==
           before[..|before| - 9] + ("<url><loc>" + loc + "</loc><lastmod>" + lastmod + "</lastmod></url>") + "</urlset>"
  {
    var before := UrlSet(entries);
    var body := "<urlset>" + RenderAll(entries);
    assert before == body + "</urlset>";
    assert before[..|before| - 9] == body && before[|before| - 9..] == "</urlset>";
    UrlSetAppend(entries, SiteMapEntry(loc, lastmod, None));
    RenderWithoutPriority(loc, lastmod);
  }

  // ---------------------------------------------------------------------------------------------
  // Modification times

  /** The time a line `<hash>,<milliseconds>` records for `hash`. */
  function TimeOnLine(line: string, hash: string): Option<int>
  {
    match StripPrefix(line, hash)
    case None => None
    case Some(rest) =>
      match StripPrefix(rest, ",")
      case None => None
      case Some(digits) => ParseI64(digits)
  }

  /** The first time any line records for `hash`. */
  function FirstTime(lines: seq<string>, hash: string): (r: Option<int>)
    ensures r.Some? ==> I64Min <= r.value <= I64Max
    decreases |lines|
  {
    if lines == [] then None
    else if TimeOnLine(lines[0], hash).Some? then TimeOnLine(lines[0], hash)
    else FirstTime(lines[1..], hash)
  }

  /** The time the previous run's file records for `hash`. */
  function StoredTime(oldTxt: string, hash: string): Option<int>
  {
    FirstTime(Split(oldTxt, '\n'), hash)
  }

  /** `as_millis() as i64`: the clock's milliseconds, cut to 64 bits and read as signed. */
  function ClockMillis(nowMillis: nat): int
  {
    Semantics.AsI64(nowMillis % 0x1_0000_0000_0000_0000)
  }

  /** The time `get_change_time` answers: the stored one, else the current time. */
  function ChangeTime(oldTxt: string, hash: string, nowMillis: nat): (r: int)
    ensures I64Min <= r <= I64Max
  {
    match StoredTime(oldTxt, hash)
    case Some(t) => t
    case None => ClockMillis(nowMillis)
  }

  /** The line the file gets for one queried page. */
  function Record(hash: string, time: int): string
  {
    hash + "," + IntToString(time)
  }

  function Records(queried: seq<(string, int)>): (r: seq<string>)
    ensures |r| == |queried|
    ensures forall k :: 0 <= k < |r| ==> r[k] == Record(queried[k].0, queried[k].1)
  {
    seq(|queried|, k requires 0 <= k < |queried| => Record(queried[k].0, queried[k].1))
  }

  /** The text `drop` writes to the file: one line per queried page, in order. */
  function SavedText(queried: seq<(string, int)>): string
  {
    Join(Records(queried), '\n')
  }

  /** The first time recorded for `hash` among the queried pages. */
  function FirstRecorded(queried: seq<(string, int)>, hash: string): Option<int>
    decreases |queried|
  {
    if queried == [] then None
    else if queried[0].0 == hash then Some(queried[0].1)
    else FirstRecorded(queried[1..], hash)
  }

  predicate IsHash(s: string) { s != [] && AllDigits(s) }

  /** One line answers for a hash exactly when it is that hash's line. */
  lemma TimeOnRecord(h: string, t: int, hash: string)
    requires IsHash(h) && IsHash(hash) && I64Min <= t <= I64Max
    ensures TimeOnLine(Record(h, t), hash) == if h == hash then Some(t) else None
  {
    if h == hash {
      OwnRecord(h, t);
    } else {
      OtherRecord(h, t, hash);
    }
  }

  /** A line that starts with the hash and a comma answers with what the rest of it reads as. */
  lemma TimeAfterHash(h: string, digits: string)
    ensures TimeOnLine(h + "," + digits, h) == ParseI64(digits)
  {
    var rest := "," + digits;
    assert h + "," + digits == h + rest;
    assert (h + rest)[..|h|] == h && (h + rest)[|h|..] == rest;
    assert rest[..1] == "," && rest[1..] == digits;
  }

  /** A hash's own line answers with the time written on it. */
  lemma OwnRecord(h: string, t: int)
    requires I64Min <= t <= I64Max
    ensures TimeOnLine(Record(h, t), h) == Some(t)
  {
    TimeAfterHash(h, IntToString(t));
    ParseIntToString(t);
  }

  /** The line of another hash never answers, not even when one hash is a prefix of the other:
      the comma after a hash is no digit. */
  lemma OtherRecord(h: string, t: int, hash: string)
    requires IsHash(h) && IsHash(hash) && h != hash
    ensures TimeOnLine(Record(h, t), hash) == None
  {
    var line := Record(h, t);
    assert line[|h|] == ',';
    assert forall k :: 0 <= k < |h| ==> line[k] == h[k];
    if IsPrefix(hash, line) {
      assert forall k :: 0 <= k < |hash| ==> hash[k] == line[k];
      assert |hash| < |h|;
      var rest := line[|hash|..];
      assert rest[0] == h[|hash|];
    }
  }

  lemma DigitsHaveNoNewline(s: string)
    requires AllDigits(s)
    ensures '\n' !in s
  {
  }

  lemma RecordHasNoNewline(h: string, t: int)
    requires IsHash(h)
    ensures '\n' !in Record(h, t)
  {
    DigitsHaveNoNewline(h);
    if t < 0 { DigitsHaveNoNewline(NatToString(-t)); } else { DigitsHaveNoNewline(NatToString(t)); }
  }

  lemma {:induction false} FirstTimeOfRecords(queried: seq<(string, int)>, hash: string)
    requires IsHash(hash)
    requires forall k :: 0 <= k < |queried| ==> IsHash(queried[k].0) && I64Min <= queried[k].1 <= I64Max
    ensures FirstTime(Records(queried), hash) == FirstRecorded(queried, hash)
    decreases |queried|
  {
    if queried != [] {
      TimeOnRecord(queried[0].0, queried[0].1, hash);
      assert Records(queried)[1..] == Records(queried[1..]);
      FirstTimeOfRecords(queried[1..], hash);
    }
  }

  /** What the next run reads back from the file this run writes: for each hash, the time first
      recorded for it; nothing for a hash not queried. */
  lemma SavedTimesRoundTrip(queried: seq<(string, int)>, hash: string)
    requires IsHash(hash)
    requires forall k :: 0 <= k < |queried| ==> IsHash(queried[k].0) && I64Min <= queried[k].1 <= I64Max
    ensures StoredTime(SavedText(queried), hash) == FirstRecorded(queried, hash)
  {
    var lines := Records(queried);
    if queried == [] {
      assert lines == [];
      assert SavedText(queried) == "";
      assert Split("", '\n') == [""];
      assert TimeOnLine("", hash) == None;
      assert [""][1..] == [];
      assert FirstTime([""], hash) == None;
    } else {
      forall k | 0 <= k < |lines| ensures '\n' !in lines[k] {
        RecordHasNoNewline(queried[k].0, queried[k].1);
      }
      SplitJoin(lines, '\n');
      FirstTimeOfRecords(queried, hash);
    }
  }

  // ---------------------------------------------------------------------------------------------
  // The resolver and the builder

  /** `ModificationTimestampResolver`: the text of the previous run's file and the pages
      queried in this run. */
  class ModificationTimestampResolver {
    var oldTxt: string
    var queried: seq<(string, int)>

    /** Every page queried so far is remembered by a decimal hash and an `i64` time. */
    predicate Valid()
      reads this
    {
      forall k :: 0 <= k < |queried| ==> IsHash(queried[k].0) && I64Min <= queried[k].1 <= I64Max
    }

    /** `new`, given the file's text (`None` when it cannot be read). */
    constructor(previous: Option<string>)
      ensures oldTxt == (match previous case Some(t) => t case None => "")
      ensures queried == []
      ensures Valid()
    {
      oldTxt := match previous case Some(t) => t case None => "";
      queried := [];
    }

    /** `get_change_time`: the first line of the previous file for the content's hash gives
        the time, otherwise the clock does; either way the page is remembered. */
    method GetChangeTime(contentHash: Loader.u64, nowMillis: nat) returns (time: int)
      requires Valid()
      modifies this
      ensures Valid()
      ensures oldTxt == old(oldTxt)
      ensures time == ChangeTime(oldTxt, NatToString(contentHash), nowMillis)
      ensures queried == old(queried) + [(NatToString(contentHash), time)]
    {
      var hash := NatToString(contentHash);
      var lines := Split(oldTxt, '\n');
      var found: Option<int> := None;
      var i := 0;
      while i < |lines| && found.None?
        invariant 0 <= i <= |lines|
        invariant found.None? ==> FirstTime(lines, hash) == FirstTime(lines[i..], hash)
        invariant found.Some? ==> FirstTime(lines, hash) == found
      {
        assert lines[i..][1..] == lines[i + 1..];
        found := TimeOnLine(lines[i], hash);
        i := i + 1;
      }
      if found.None? {
        assert lines[i..] == [];
      }
      assert StoredTime(oldTxt, hash) == found;
      time := match found case Some(t) => t case None => ClockMillis(nowMillis);
      queried := queried + [(hash, time)];
    }

    /** The text `drop` saves. */
    function Saved(): (r: string)
      reads this
      ensures Valid() ==> forall hash :: IsHash(hash) ==> StoredTime(r, hash) == FirstRecorded(queried, hash)
    {
      var r := SavedText(queried);
      forall hash | IsHash(hash) && Valid() ensures StoredTime(r, hash) == FirstRecorded(queried, hash) {
        SavedTimesRoundTrip(queried, hash);
      }
      r
    }
  }

  /** `SiteMapBuilder`. */
  class SiteMapBuilder {
    var root: string
    var entries: seq<SiteMapEntry>
    var resolver: ModificationTimestampResolver

    /** The resolver's record of queried pages is well formed. */
    predicate Valid()
      reads this, resolver
    {
      resolver.Valid()
    }

    /** `new`, given the root and the text of the previous run's modification file. */
    constructor(root: string, previous: Option<string>)
      ensures this.root == NormalizeRoot(root)
      ensures entries == []
      ensures fresh(resolver)
      ensures resolver.oldTxt == (match previous case Some(t) => t case None => "")
      ensures resolver.queried == []
      ensures Valid()
    {
      this.root := NormalizeRoot(root);
      entries := [];
      resolver := new ModificationTimestampResolver(previous);
    }

    /** `add`: the page's address and the day its content last changed are appended; the
        millisecond-to-day conversion `dayOf` must accept the time found (the source unwraps
        it). */
    method Add(path: string, contentHash: Loader.u64, nowMillis: nat, dayOf: int -> Option<string>)
      requires Valid()
      requires dayOf(ChangeTime(resolver.oldTxt, NatToString(contentHash), nowMillis)).Some?
      modifies this, resolver
      ensures Valid()
      ensures root == old(root) && resolver == old(resolver)
      ensures resolver.oldTxt == old(resolver.oldTxt)
      ensures
        var time := ChangeTime(resolver.oldTxt, NatToString(contentHash), nowMillis);
        && entries == old(entries) + [SiteMapEntry(Loc(root, path), dayOf(time).value, None)]
        && resolver.queried == old(resolver.queried) + [(NatToString(contentHash), time)]
        && var before := old(UrlSet(entries));
           UrlSet(entries) == before[..|before| - 9]
                              + ("<url><loc>" + Loc(root, path) + "</loc><lastmod>" + dayOf(time).value + "</lastmod></url>")
                              + "</urlset>"
    {
      var loc := Loc(root, path);
      var time := resolver.GetChangeTime(contentHash, nowMillis);
      UrlSetAddPage(entries, loc, dayOf(time).value);
      entries := entries + [SiteMapEntry(loc, dayOf(time).value, None)];
    }

    /** `build`: the `<urlset>` of the added pages, in the order they were added. */
    function Build(): (r: string)
      reads this
      ensures IsPrefix("<urlset>", r) && IsSuffix("</urlset>", r)
      ensures entries == [] ==> r == "<urlset></urlset>"
      ensures r == UrlSet(entries)
    {
      var r := "<urlset>" + RenderAll(entries) + "</urlset>";
      assert r[..8] == "<urlset>";
      assert r[|r| - 9..] == "</urlset>";
      r
    }
  }
}
