# A verified model of the website builder's page engine

This project models, in Dafny, the page-construction engine of the Rust website builder under
`builder/src`, together with the sitemap builder and the older placeholder scanner of
`subrepo/src`.

**Placeholder documents** (`FwHTML`) are HTML texts with `{{ name }}` variable placeholders and
`{{ components/name }}` component placeholders.
- `Placeholders` models the two regexes and `captures_iter` as a left-to-right scan. It proves
  that the scan finds exactly the placeholders of the text, without overlaps.
- `Ir` proves that `used_variables` and `used_components` are the strictly sorted,
  duplicate-free lists of the names used. It also models the doctype rule of `template`, and
  `load_templates` and `load_components` as loops over the files.

**Build procedures** (`Procedure`) are the per-page recipes: a template name and a list of
steps that bind variables to values. `Procedure.New` converts a deserialised `.yml` file step
by step: the first null-valued key names the step, and any further null is an error.

**Building a page** is three mutually recursive operations:
- `Value::generate`;
- `FwHTML::resolved`, which substitutes components, then bound variables, and resolves again
  until nothing more can be filled;
- `execute_with_template_override`, which accumulates bindings step by step and resolves after
  each step.

They can run forever on cyclic inputs: an `Index` value runs other procedures, and `resolved`
re-resolves without a cycle guard. They are therefore defined in `Semantics` as functions
sharing a `fuel` argument and answering `OutOfFuel` when it runs out. `Engine` holds the
source's loops as methods, each proved equal to its `Semantics` function. `Resolution` and
`Execution` prove what the functions promise:
- the first missing component;
- the fixed point that `resolved` reaches;
- the bindings each step sees;
- the skip, error, order and `link` rules of an `Index` value.

`IndexOrder` proves the newest-first, stable order of index items.

**The page tree** (`FsTrees`) models:
- `parse`, which classifies files by extension;
- `filter`, which collects the files of one extension together with their paths;
- `get`, a slash-separated lookup that answers with the first hit in child order.

`Website.Build` is the driver loop that runs every `.yml` procedure of the tree.

**The sitemap** (`SiteMapper`) covers:
- root normalisation;
- page addresses;
- the `<urlset>` text;
- the `page-modifications` record of content hashes and times. What the next run reads back
  from that file is proved to be what this run queried.

`SubrepoIr` models the older scanner, which keeps duplicates and textual order and does not
accept hyphens in names. It is related to the builder's scanner name by name.

Modules: `Wrappers`, `Strings`, `Placeholders`, `Loader`/`Procedure`, `FsTrees`, `Ir`,
`IndexOrder`, `Semantics`, `Resolution`, `Execution`, `Engine`, `Website`, `SiteMapper`,
`SubrepoIr`.

Three places where the model has to settle something the source text leaves open:
- `ParsedFsTree` has no `created` field in builder/src/fs_tree.rs, yet the `Index` arm of
  `generate` reads `child.created`. The model gives trees and parsed trees a
  `created: Option<nat>` field, which parsing copies.
- `HashMap` iteration order is unspecified. Maps that the source iterates are modelled as
  sequences in the order of iteration, and results that depend on that order are stated for
  every order.
- The variables of a step are lazy closures in the source. They are modelled as a map from
  names to values, generated when a placeholder uses them.

## Model

| member | source | states |
|---|---|---|
| Placeholders.MatchAtComplete | builder/src/ir.rs:246-247 | wherever a placeholder stands, the regex tried at that index matches exactly that placeholder and captures its name |
| Placeholders.NoOverlap | builder/src/ir.rs:258-265 | no placeholder of either kind starts strictly inside another one, so the non-overlapping scan cannot hide one |
| Placeholders.ComponentIsNotVariable | builder/src/ir.rs:246-256 | a `{{ components/x }}` placeholder is never also read as a variable placeholder |
| Placeholders.ReplaceKeepsPlaceholder | builder/src/ir.rs:169-185 | `str::replace` of one name's placeholder leaves standing every placeholder of another variable, and every variable placeholder when a component is replaced |
| Placeholders.HyphenatedNameNotMatched | subrepo/src/ir.rs:185-186 | where a placeholder with a '-' in its name stands, a `\w*` pattern matches nothing at that index |
| Placeholders.ScanSound | builder/src/ir.rs:258-260 | every match of `captures_iter` is a placeholder of the text, and the matches come strictly left to right |
| Placeholders.ScanComplete | builder/src/ir.rs:258-260 | every placeholder at or after the start index is among the matches |
| Placeholders.ScanNames | builder/src/ir.rs:258-262 | the captured names are exactly the names the text has placeholders for |
| Placeholders.SortDedup | builder/src/ir.rs:263 | `.sorted().dedup()` gives a strictly sorted list with the same elements |
| Placeholders.StrictlySortedUnique | builder/src/ir.rs:263 | two strictly sorted lists with the same elements are equal, so the sorted names are determined by the text |
| Placeholders.SortedNames | builder/src/ir.rs:258-265 | `extract_regex_captures` gives the names used in the text, strictly sorted, each once |
| Ir.UsedVariables | builder/src/ir.rs:246-250 | the variable names used in the text (word characters and '-'), strictly sorted, each once, and no others |
| Ir.UsedComponents | builder/src/ir.rs:252-256 | the component names used in the text, strictly sorted, each once, and no others |
| Ir.ComponentsAreNotVariables | builder/src/ir.rs:246-256 | no used variable contains '/', and where a component placeholder stands no variable placeholder does |
| Ir.New | builder/src/ir.rs:142-159 | `new` never fails, keeps the text and records exactly the placeholders of that text |
| Ir.Template | builder/src/ir.rs:136-141 | `template` fails with `NotATemplate` if and only if the text does not start with `<!DOCTYPE html>`, and otherwise is `new` |
| Ir.LoadTemplates | builder/src/ir.rs:56-65 | the loop over the files computes the template loading of the files in iteration order |
| Ir.TemplatesFromFails | builder/src/ir.rs:58-63 | loading fails exactly when some remaining file does not start with the doctype |
| Ir.TemplatesFromFirstError | builder/src/ir.rs:61 | a failed loading reports `InvalidTemplateHTML` with the first file that is not a template |
| Ir.TemplatesAsComponents | builder/src/ir.rs:56-76 | a successful template loading stores the same documents as component loading |
| Ir.LoadTemplatesMeaning | builder/src/ir.rs:56-65 | failure if and only if some file lacks the doctype, naming the first such file; on success the keys are the file names, every document starts with the doctype and is analysed from its own text, and with distinct names each file is stored with its text |
| Ir.LoadComponents | builder/src/ir.rs:67-76 | the loop over the files never fails and computes the component loading of the files in iteration order |
| Ir.ComponentsFromLoaded | builder/src/ir.rs:69-74 | loading keeps what was stored so far and stores every remaining file under its name |
| Ir.LoadComponentsMeaning | builder/src/ir.rs:67-76 | the keys are the file names, every document is analysed from its own text, and with distinct names each file is stored with its own text |
| Procedure.TagForTag | builder/src/builder.rs:56-64 | every non-null YAML value converts tag for tag (`type: text` becoming `TextFile`), and back, without loss |
| Procedure.New | builder/src/builder.rs:41-75 | the step-by-step conversion computes the loading of the file |
| Procedure.ConvertEntriesMeaning | builder/src/builder.rs:49-68 | from a state with or without a name, the entries convert if and only if they hold no null, or the state has no name and they hold exactly one; the variables are the state's overridden by the entries' bindings, and the name is the state's or else the first null-valued key |
| Procedure.ConvertStepMeaning | builder/src/builder.rs:51-69 | a step converts if and only if it has at most one null value; the first null-valued key names it and the other entries are its variables |
| Procedure.BoundMeaning | builder/src/builder.rs:67 | with distinct keys, each non-null entry is bound to its converted value, and every bound name comes from a non-null entry |
| Procedure.FirstNullKeyIsNull | builder/src/builder.rs:52-53 | a step has a name if and only if it has a null value, and the name is the key of the first one |
| Procedure.StepConversion | builder/src/builder.rs:48-69 | for a step with distinct keys, in any order, the conversion succeeds exactly with at most one null and names the step by its first null-valued key |
| Procedure.ConvertStepsMeaning | builder/src/builder.rs:47-70 | the steps convert if and only if each does, one output step per input step, in order |
| Procedure.BuildFileConversion | builder/src/builder.rs:41-75 | loading keeps the template and yields one step per file step in order; it fails with `UnexpectNoneVariableValue` exactly when some step has two nulls |
| Procedure.ConvertOnlyFailsOnNull | builder/src/builder.rs:65 | the only conversion error is `UnexpectNoneVariableValue` |
| Procedure.ConvertEntriesError | builder/src/builder.rs:52-65 | the inner loop fails only with `UnexpectNoneVariableValue` |
| Procedure.DecodesSampleBlogTemplate | builder/src/builder.rs:302-336 | the sample blog file of the builder's test converts to its two named steps with the expected variables |
| Semantics.AsI64 | builder/src/builder.rs:126 | `value as i64` lies in the i64 range, equals the value or the value minus 2^64, and is non-negative exactly when the value fits |
| Semantics.Generate | builder/src/builder.rs:121-194 | `Text` yields itself; `Int` its shortest decimal digits; `UnixTimestamp` the `<time>` element or fails when out of range; `Md`/`TextFile` fail with `FileDoesntExist` exactly when `pages/{path}` is no text file and otherwise render it or return it verbatim; `Index` fails with `NoDirAtIndexPath` exactly when there is no directory at the path |
| Semantics.IndexItems | builder/src/builder.rs:162-186 | the index loop only fails with `CantBuildIndexItem`, `IndexGitTimestampMissing` or `MissingComponent` |
| Engine.Generate | builder/src/builder.rs:121-194 | the method computes `generate` as specified |
| Engine.IndexEntries | builder/src/builder.rs:158-188 | the loop over the sorted children, with its early returns, computes the index text as specified |
| Engine.InsertComponents | builder/src/ir.rs:169-175 | the components loop computes the component substitution as specified |
| Engine.InsertVariables | builder/src/ir.rs:177-185 | the variables loop computes the variable substitution as specified |
| Engine.Resolved | builder/src/ir.rs:162-204 | the method computes `resolved` as specified |
| Engine.ResolveAgain | builder/src/ir.rs:187-201 | the `while` loop computes the repeated resolution as specified |
| Engine.ExecuteWithTemplateOverride | builder/src/builder.rs:85-99 | the loop keeps the bindings equal to those of the steps so far and computes the execution as specified |
| Engine.Execute | builder/src/builder.rs:77-83 | the method computes `execute` as specified |
| Resolution.SubstComponentsMeaning | builder/src/ir.rs:169-175 | the components loop fails if and only if a used component is missing, and then with `MissingComponent` of the first missing one |
| Resolution.ResolvedMissingComponent | builder/src/ir.rs:169-172 | a document using a component absent from the map fails to resolve with `MissingComponent` of the least absent component it uses |
| Resolution.SubstVariablesMeaning | builder/src/ir.rs:177-185 | with no used variable bound the text is unchanged; when every bound one generates the loop succeeds; a failure is `VariableError` of the first bound variable whose generation fails |
| Resolution.SubstComponentsKeepsVariable | builder/src/ir.rs:169-175 | the components loop, when it succeeds, leaves every variable placeholder of the text standing |
| Resolution.SubstVariablesKeepsUnbound | builder/src/ir.rs:177-185 | the variables loop, when it succeeds, leaves the placeholder of every variable that is not bound |
| Resolution.ResolvedKeepsUnbound | builder/src/ir.rs:162-203 | a successful `resolved` keeps the placeholder of an unbound variable in its text and lists that variable as used |
| Resolution.RepeatKeepsUnbound | builder/src/ir.rs:191-201 | the re-resolve loop, when it succeeds, keeps the placeholder of an unbound variable |
| Resolution.RepeatReachesFixedPoint | builder/src/ir.rs:191-201 | the re-resolve loop stops only at a document that uses no bound variable and no present component |
| Resolution.RepeatConsistent | builder/src/ir.rs:187-201 | every document the re-resolve loop answers with is analysed from its own text |
| Resolution.ResolvedFixedPoint | builder/src/ir.rs:187-203 | a resolved document is analysed from its own text and uses no bound variable and no present component |
| Resolution.ResolvedIdentity | builder/src/ir.rs:167-192 | a document using no component and no bound variable resolves to itself |
| Execution.BindingsDomain | builder/src/builder.rs:86-90 | a name is bound after some steps if and only if one of them binds it |
| Execution.BindingsLatest | builder/src/builder.rs:86-90 | a name is bound to its value in the latest step that binds it |
| Execution.LinkVisible | builder/src/builder.rs:175-179 | every step of an index item sees `link` bound to the item's name with `.yml` replaced by `.html`, unless its own steps bind `link` |
| Execution.LinkOfItem | builder/src/builder.rs:175 | the link of an item `stem.yml` is `stem.html` |
| Execution.RunStepsErrors | builder/src/builder.rs:87-98 | with no step left the result is the document's text; every failure is a `TemplateResolveError` |
| Execution.ExecuteMeaning | builder/src/builder.rs:77-83 | `execute` fails with `TemplateNotFound` exactly when the template is absent, otherwise is the override run on it, and with no steps returns the template text unchanged |
| Execution.EligibleOnly | builder/src/builder.rs:164-167 | the children an index builds items from are exactly the build procedures not named `index.yml` |
| Execution.IndexSkipsIneligible | builder/src/builder.rs:164-167 | skipped children do not affect the index: its result is that of the eligible children alone |
| Execution.IndexErrors | builder/src/builder.rs:162-183 | no eligible child gives empty text; otherwise the first eligible child without a creation time gives `IndexGitTimestampMissing`, then a missing item component gives `MissingComponent`, and a failing item gives `CantBuildIndexItem` with its name |
| Execution.GenerateIndex | builder/src/builder.rs:152-188 | an index over a directory lists the eligible children's items, newest first |
| IndexOrder.InsertByAgeElements | builder/src/builder.rs:160-161 | inserting adds exactly the one entry |
| IndexOrder.InsertByAgeSorted | builder/src/builder.rs:160-161 | inserting into a newest-first list keeps it newest first |
| IndexOrder.InsertByAgeStable | builder/src/builder.rs:160-161 | inserting puts the new entry in front of the entries of the same creation time and keeps their order, so sorting from the back is stable |
| IndexOrder.SortNewestFirstMeaning | builder/src/builder.rs:160-161 | the children are visited newest first (no time counting as 0), each exactly once, with ties in their original order |
| IndexOrder.NewestFirstSample | builder/src/builder.rs:160-161 | posts created at 100, 300 and 200 are visited 300, 200, 100 |
| FsTrees.LastDot | builder/src/fs_tree.rs:46 | the index of the last '.' of a name, if any |
| FsTrees.ExtensionMeaning | builder/src/fs_tree.rs:46 | the extension is the dot-free text after a dot that ends a non-empty stem, and every such split of a name gives its extension and stem |
| FsTrees.SetExtensionMeaning | builder/src/website_builder.rs:19 | setting an extension gives the name that extension and keeps its stem |
| FsTrees.Parse | builder/src/fs_tree.rs:43-73 | the method computes `parse` of the tree as specified |
| FsTrees.ParseEach | builder/src/fs_tree.rs:61-71 | the children loop, stopping at the first error, computes the parse of the children |
| FsTrees.ParseMeaning | builder/src/fs_tree.rs:43-73 | parsing keeps names, creation times, child count and order; `yml` files become build procedures or fail with `InvalidBuildProcedure`, other files stay text; a directory fails exactly when a child does, with the first failing child's error |
| FsTrees.ParseChildrenMeaning | builder/src/fs_tree.rs:62-66 | the children parse one for one, in order, and the first failing child's error ends the loop |
| FsTrees.FilterSound | builder/src/fs_tree.rs:100-120 | every result of `filter` is a non-directory entry of the tree, with the extension asked for, reached along the reported path |
| FsTrees.FilterComplete | builder/src/fs_tree.rs:100-120 | every non-directory entry of the tree whose name has the extension asked for is among the results of `filter`, under its path from the tree's root |
| FsTrees.FilterOfDirectory | builder/src/fs_tree.rs:103-111 | `filter` on a directory is the in-order concatenation of its children's results, each path prefixed by the directory's name |
| FsTrees.SplitOnce | builder/src/fs_tree.rs:126-128 | `splitn(2, '/')` yields two parts exactly when there is a '/', split at the first one |
| FsTrees.Lookup | builder/src/fs_tree.rs:122-143 | the lookup, with its early return from the loop over the children, computes `get` as specified |
| FsTrees.FirstHitMeaning | builder/src/fs_tree.rs:131-136 | the answer is the entry found by the first child that finds one, and none when no child does |
| FsTrees.GetDescends | builder/src/fs_tree.rs:125-142 | when `get` finds something for a path other than the tree's own name, the tree is a directory without '/' in its name, the path is that name, a '/' and a rest, and the answer is that of the first child that finds the rest |
| FsTrees.GetEntryAt | builder/src/fs_tree.rs:122-143 | in a tree with proper names, looking up the joined path of any entry finds that entry |
| FsTrees.GetMissesOtherName | builder/src/fs_tree.rs:129 | a path that starts with another name finds nothing |
| Website.OutputPath | builder/src/website_builder.rs:19 | `set_extension("html")` only changes the last component of the path |
| Website.Build | builder/src/website_builder.rs:13-30 | the loop succeeds or fails as the page building does, returning its pages or its error |
| Website.BuildPagesMeaning | builder/src/website_builder.rs:14-27 | one page per build procedure in the order found, each at its output path with exactly `execute` of its procedure; a failure is the error of the first failing procedure; if every procedure builds, so does the website |
| Website.PagesReplaceYml | builder/src/website_builder.rs:15-19 | every page sits where its `.yml` file was, with the same stem and the extension `html` |
| Website.ProceduresFrom | builder/src/website_builder.rs:15-18 | each build procedure comes from an entry found with its path |
| SiteMapper.NormalizeRootMeaning | builder/src/sitemapper.rs:15-20 | the root starts with `http` and ends with `/`; it changes only where those are missing, and normalising twice changes nothing |
| SiteMapper.LocMeaning | builder/src/sitemapper.rs:33-35 | one leading '/' and a trailing `index.html` are dropped, and the address is the root followed by the path |
| SiteMapper.UrlSetAddPage | builder/src/sitemapper.rs:32-63 | adding a page keeps the sitemap text up to its closing `</urlset>` and puts `<url><loc>` address `</loc><lastmod>` day `</lastmod></url>` in front of that closing tag |
| SiteMapper.UrlSetAppend | builder/src/sitemapper.rs:44-49 | adding an entry inserts its element right before `</urlset>` |
| SiteMapper.TimeOnRecord | builder/src/sitemapper.rs:94-100 | a recorded line answers for a hash exactly when it is that hash's line, with the time written on it |
| SiteMapper.OtherRecord | builder/src/sitemapper.rs:96-98 | another hash's line never answers, even when one hash is a prefix of the other |
| SiteMapper.ChangeTime | builder/src/sitemapper.rs:94-103 | the change time is always an `i64`: a stored time passed `parse::<i64>`, and the clock is cut to `i64` |
| SiteMapper.FirstTimeOfRecords | builder/src/sitemapper.rs:94-101 | over recorded lines, the first time for a hash is the first time queried for it |
| SiteMapper.SavedTimesRoundTrip | builder/src/sitemapper.rs:94-101 | what the next run reads back from the saved text is, for each hash, the first time this run queried for it |
| SiteMapper.ModificationTimestampResolver.constructor | builder/src/sitemapper.rs:74-85 | the old text is the file's text, or empty when it cannot be read, and nothing has been queried, so the record invariant `Valid` holds |
| SiteMapper.ModificationTimestampResolver.GetChangeTime | builder/src/sitemapper.rs:87-107 | the time is the first stored time for the hash, otherwise the clock's; the query is appended to `queried`, and `Valid` (decimal hashes, `i64` times) is kept |
| SiteMapper.ModificationTimestampResolver.Saved | builder/src/sitemapper.rs:110-114 | in every state where `Valid` holds, the text `drop` saves reads back, for each hash, as the first time queried for it |
| SiteMapper.SiteMapBuilder.constructor | builder/src/sitemapper.rs:14-26 | the root is normalised, there are no entries, and a new resolver is made |
| SiteMapper.SiteMapBuilder.Add | builder/src/sitemapper.rs:32-42 | exactly one entry is appended, with the page's address, the day of its change time and no priority; the query is recorded; the text `build` gives gains exactly that page's `<url>` element before `</urlset>`; `Valid` is kept |
| SiteMapper.SiteMapBuilder.Build | builder/src/sitemapper.rs:44-49 | `<urlset>`, the entries' elements in insertion order, then `</urlset>` |
| Strings.StartsWithIsPrefix | builder/src/ir.rs:137 | `starts_with` holds exactly when the pattern is a prefix of the text |
| Strings.ReplaceAllLastOnly | builder/src/builder.rs:175 | replacing a suffix that occurs only at the end replaces just that suffix |
| Strings.ParseIntToString | builder/src/sitemapper.rs:99 | parsing an i64 reads back what `to_string` wrote |
| Strings.JoinSplit | builder/src/sitemapper.rs:95 | joining the pieces of a split gives the text back |
| Strings.SplitJoin | builder/src/sitemapper.rs:112-114 | splitting joined lines without separators gives the lines back |
| SubrepoIr.Captured | subrepo/src/ir.rs:197-203 | the captured names are exactly the names the text has placeholders for |
| SubrepoIr.UsedVariables | subrepo/src/ir.rs:185-189 | the variable names used in the text, names over `\w` |
| SubrepoIr.UsedComponents | subrepo/src/ir.rs:191-195 | the component names used in the text |
| SubrepoIr.CapturedInOrder | subrepo/src/ir.rs:197-203 | one name per match, in textual order, every placeholder of the text reported |
| SubrepoIr.HyphenatedNotReported | subrepo/src/ir.rs:185-186 | a hyphenated variable placeholder is not a match at all |
| SubrepoIr.SameNamesAsBuilder | subrepo/src/ir.rs:185-195 | the names reported are exactly the builder's names that contain no '-' |
| SubrepoIr.DuplicatesKept | subrepo/src/ir.rs:197-203 | `{{ a }}{{ a }}` reports `a` twice here and once in the builder |
| SubrepoIr.New | subrepo/src/ir.rs:139-156 | `new` never fails, keeps the text and records exactly its placeholders |
| SubrepoIr.Template | subrepo/src/ir.rs:133-138 | `template` fails with `NotATemplate` exactly when the text does not start with the doctype, and otherwise is `new` |

## Left out

- Reading the source directory, `FsTree::load`, `Website::write` and the command-line entry points are file I/O. The model starts from the tree already in memory.
- YAML deserialisation (`serde_yml`) is a parameter `deserialize` that yields the deserialised build file or an error message. The model converts what it yields.
- Markdown rendering (`pulldown_cmark`) and seconds-to-date conversion (`chrono`) are function-typed fields of the `IR`. The range limit of `chrono` is whatever that function answers.
- Class-name extraction (`scraper`, `used_class_names`), the CSS stylesheets and the site configuration are not part of this model.
- `\w` is approximated by the ASCII letters, digits and `_`, with no Unicode word characters.
- Semantics.Generate, Semantics.IndexItems, Engine.Resolved and Engine.ResolveAgain: the source has no termination guarantee. The shared `fuel` bound answers `OutOfFuel` where the source would recurse further or loop forever; results other than `OutOfFuel` are exact.
- Dead code is not modelled: the commented-out `BuildScript` block, `CantResolveVars`, and the errors `new` can no longer produce (`DocumentContainsErrors`, `GeneratesErrorInDocument`).
- Content hashing, the clock, reading and writing `page-modifications`, and `%Y-%m-%d` formatting in the sitemap are parameters: the content hash as a `u64`, the current milliseconds, the file's text and a day function.
- SiteMapper.SiteMapBuilder.Add requires the day function to accept the time found, where the source unwraps `from_timestamp_millis` and would panic.
- The subrepo's `fs_tree.rs`, its `IR::new` and the Python scripts are not part of this model.
- Execution.IndexErrors states the error order only for the first eligible child; later children follow from `Semantics.IndexItems` by `Execution.IndexSkipsIneligible`.
- Console output is not modelled: the progress lines `Website::build` prints (builder/src/website_builder.rs:20-21,25), the line `Website::write` prints per page (builder/src/website_builder.rs:45), and the warnings the timestamp resolver prints when `page-modifications` cannot be read or written (builder/src/sitemapper.rs:75-80,116-118). None of them changes a result.
