# A verified model of the baler AMD bundler

baler builds a "core bundle" for each frontend theme of a Magento 2 store. The
flow is as follows:

- It reads the store's enabled modules, components and deployed themes.
- It checks which themes may be optimised.
- It evaluates the theme's `requirejs-config.js` to find the entry points (`deps`).
- Starting from those entry points, it walks the AMD dependency graph breadth-first.
- It orders the modules depth-first, in the order the AMD runtime runs them.
- It rewrites each module into a named AMD module.
- It generates a RequireJS `bundles` config for the bundle.
- It writes the files to every deployed locale of the theme.

Template dependencies get their own parser. It reads `data-mage-init`,
`mageInit` bindings, `text/x-magento-init` scripts and `define`/`require` in
scripts.

This project models the decision-making core of those steps in Dafny and proves
what the code promises about it. The proved properties include:

- **Tracer:** it terminates on cyclic graphs, every edge it records leads to a
  built-in or to a traced module, and it reports one resolved ID per entry point,
  in entry order.
- **Bundle walk:** it never bundles a module twice, never bundles a built-in,
  bundles every reachable module, and orders the modules depth-first.
- **Module rewrites:** they keep the source whole and always produce a named
  module.
- **Dependency extraction:** the deps are exactly the string literals, and the
  incomplete-analysis flag is raised exactly when some element is not one.
- **Write plan:** it has one write per (file, locale) pair, in file-major order.

The program's own form is kept:

- Code that changes state step by step is a method with loop invariants, proved
  against a function that specifies it. This covers the breadth-first tracer,
  computeDepsForBundle over an array, the registration walk, the mixin and
  enabled-module loops, and the dependency-extraction loops.
- Objects whose fields are reassigned are classes: `DependencyGraph`, the
  template `NodeCollector`, the `deps` capture hook and the tracer's state.
- Pure helpers are functions with lemmas.

Inputs that come from the outside are parameters:

- the file system (a map from path to contents, or the directory listings);
- the RequireJS resolver;
- the JavaScript, PHP and HTML parsers.

A thrown error is the `Err` case of a `Result`, carrying the message the source
builds.

Some tests disagree with the code. In each case the model follows the code:

- `computeDepsForBundle` (src/computeDepsForBundle.ts:16-36) skips only the
  require built-ins. One of its unit tests expects `text!js-translation.json`
  to be dropped too. The model bundles it (`Bundle.ExcludedFileIsBundled`).
- The tracer reads `resolver(dep).moduleID` from a record. The resolver is
  given as a function that returns such a record.
- The `transformAMD` snapshot tests pin exact whitespace. The model states the
  layout in terms of head and tail pieces, not literal snapshots.

## Model

| member | source | states |
|---|---|---|
| Flatten.Flatten | src/flatten.ts:9-11 | `[].concat(...array)`: the inner lists one after another; see FlattenLength, FlattenAppend and FlattenMember |
| Flatten.FlattenLength | src/flatten.ts:9-11 | the flattened list is as long as the inner lists together |
| Flatten.FlattenAppend | src/flatten.ts:9-11 | flattening distributes over concatenation of the outer list |
| Flatten.FlattenUniformIndex | src/flatten.ts:9-11 | with inner lists of equal width `w`, element `j` of list `i` sits at `i*w+j` |
| Flatten.FlattenMember | src/flatten.ts:9-11 | an element of the result is exactly an element of one inner list |
| Flatten.FlattenSingle | src/flatten.ts:9-11 | flattening one list gives it back |
| Arrays.Filter | src/magentoFS.ts:191 | `Array.prototype.filter` keeps at most as many elements as it is given |
| Arrays.FilterExactly | src/magentoFS.ts:191 | the kept elements are exactly those that satisfy the predicate |
| Arrays.FilterAppend | src/magentoFS.ts:191 | filtering two lists in turn is filtering their concatenation |
| Records.Values | src/getEligibleThemes.ts:19 | `Object.values` lists one value per key, in key order |
| Records.Empty | src/createDependencyGraph.ts:6-8 | `{}` is a valid record without keys |
| Records.ImmutAddProp | src/createDependencyGraph.ts:100-105 | the copy binds the key to the value, keeps every other binding, and appends a new key at the end of the key order (an existing key keeps its place) |
| Strings.Split | src/parseModuleID.ts:11 | a split always has at least one piece |
| Strings.SplitPiecesFree | src/parseModuleID.ts:11 | no piece contains the separator |
| Strings.JoinSplit | src/parseModuleID.ts:11 | joining the pieces with the separator gives the input back |
| Strings.SplitJoin | src/parseModuleID.ts:11 | splitting a join of separator-free parts gives the parts back |
| Strings.SplitPieces | src/parseModuleID.ts:11-14 | there is more than one piece exactly when the separator occurs |
| Strings.SplitWithoutSeparator | src/parseModuleID.ts:11-14 | a string without the separator splits into itself alone |
| Strings.SplitAtFirst | src/parseModuleID.ts:16 | the first piece is the text before the first separator, the rest splits on |
| Strings.TrimStart | src/magentoFS.ts:51 | the result is a suffix, starts with a non-space, and everything dropped is white space |
| Strings.TrimEnd | src/magentoFS.ts:51 | the result is a prefix, ends with a non-space, and everything dropped is white space |
| Strings.NatToString | src/cli/build.ts:21-22 | the decimal text of a count is non-empty and made of digits |
| Paths.Join | src/resolvedModuleIDToPath.ts:11 | `path.join(a, b)` starts with `a` and ends with `b` |
| Paths.JoinAppend | src/resolvedModuleIDToPath.ts:11-13 | text appended after a join is appended to its second part |
| Paths.LastIndexOf | src/resolvedModuleIDToPath.ts:10 | the index is that of the last occurrence, or -1 when there is none |
| Paths.StripTrailingSlashes | src/resolvedModuleIDToPath.ts:10 | the result is a prefix that does not end in '/' |
| Paths.LastSegment | src/resolvedModuleIDToPath.ts:10 | the base name is a '/'-free suffix |
| Paths.Extname | src/resolvedModuleIDToPath.ts:10 | `path.extname` is empty or a '.'-led, '/'-free text |
| Paths.ExtnameIsSuffix | src/resolvedModuleIDToPath.ts:10 | the extension of a path not ending in '/' is a suffix of it |
| Paths.ExtnameOfAppended | src/resolvedModuleIDToPath.ts:10-13 | appending "." and a word free of '.' and '/' makes that the extension |
| Paths.ExtnameOfAppendedJs | src/resolvedModuleIDToPath.ts:13 | a path given ".js" has the extension ".js" |
| Paths.LastSegmentAppend | src/resolvedModuleIDToPath.ts:10 | a '/'-free tail stays in the last segment |
| Paths.LastDotOfAppended | src/resolvedModuleIDToPath.ts:10 | the last '.' of `seg + "." + word` is the one before `word` |
| Paths.LastIndexOfAppend | src/resolvedModuleIDToPath.ts:10 | the last occurrence in `a + t` lies in `t` when `t` has one, and is the one of `a` otherwise |
| Paths.LastIndexOfAppendMiss | src/resolvedModuleIDToPath.ts:10 | a tail without the character leaves the last occurrence unchanged |
| Paths.LastIndexOfAppendHit | src/resolvedModuleIDToPath.ts:10 | a tail with the character holds the last occurrence |
| ModuleIds.ParseModuleID | src/parseModuleID.ts:10-41 | no '!' means the whole request is the id with no plugin; a known plugin gives the second piece as id; an unknown plugin gives an empty id and plugin |
| ModuleIds.ParseModuleIDRoundTrip | src/parseModuleID.ts:16-34 | `plugin + "!" + id` with a known plugin and a '!'-free id parses back to that id and plugin |
| ModuleIds.ParseModuleIDDropsExtraSegments | src/parseModuleID.ts:16-34 | pieces after a second '!' are ignored |
| ModuleIds.ParseModuleIDUnknownPlugin | src/parseModuleID.ts:36-40 | a plugin other than text and domReady makes the request empty |
| ModuleIds.ParseModuleIDExamples | src/parseModuleID.ts:10-24 | "foo" has no plugin; "text!foo" is `foo` with the text plugin |
| ModuleIds.ParseModuleIDEmptyId | src/parseModuleID.ts:16-34 | `domReady!` (a known plugin and nothing after) gives an empty id with that plugin |
| ModuleIds.ModuleIDToPath | src/moduleIDToPath.ts:1-3 | the path is the id followed by ".html" for the text plugin and ".js" otherwise |
| ModuleIds.ModuleIDToPathOnlyTextMatters | src/moduleIDToPath.ts:1-3 | two plugins give the same path exactly when both or neither are `text` |
| ModuleIds.ResolvedModuleIDToPath | src/resolvedModuleIDToPath.ts:9-14 | the path is `join(baseDir, request)`, with ".js" appended exactly when the extension is neither ".js" nor ".html" |
| ModuleIds.ResolvedPathHasScriptOrHtmlExtension | src/resolvedModuleIDToPath.ts:9-14 | a request whose last segment is not empty yields a path ending in ".js" or ".html" |
| ModuleIds.ResolvedPathJsSuffixOptional | src/resolvedModuleIDToPath.ts:9-14 | "foo" and "foo.js" resolve to the same path |
| ModuleIds.ResolvedModuleIDToPathAddsJs | src/resolvedModuleIDToPath.ts:13 | an extension-less request gains ".js" |
| ModuleIds.ResolvedModuleIDToPathKeepsExtension | src/resolvedModuleIDToPath.ts:13 | a request already ending in ".js" or ".html" is only joined to the base directory |
| ModuleIds.DepIsIgnored | src/depIsIgnored.ts:13-15 | ignored exactly when a require built-in or an excluded file |
| ModuleIds.BuiltInsAreIgnored | src/depIsIgnored.ts:13-15 | every built-in ("exports", "require", "module") is ignored, and so is `text!js-translation.json` |
| Mixins.EnabledOfExactly | src/getMixinsForModule.ts:14-16 | the mixins returned are exactly the enabled keys, each once, in key order |
| Mixins.EnabledOfMembers | src/getMixinsForModule.ts:14-16 | a key is returned exactly when it is enabled |
| Mixins.EnabledOfInOrder | src/getMixinsForModule.ts:14-16 | the result is a subsequence of the keys |
| Mixins.EnabledOfDistinct | src/getMixinsForModule.ts:14-16 | no mixin is returned twice |
| Mixins.MixinsFor | src/getMixinsForModule.ts:3-19 | what the lookup answers: [] without a mixins config or an entry, otherwise the enabled keys; see EnabledOfExactly |
| Mixins.GetMixinsForModule | src/getMixinsForModule.ts:3-19 | no mixins config or no entry gives []; otherwise the loop returns the enabled keys of the entry in insertion order |
| Mixins.DisabledMixinOmitted | src/requireConfig.ts:76-92 | `{bizz: true, buzz: false}` gives just `bizz` |
| Themes.GetEligibleThemes | src/getEligibleThemes.ts:16-23 | the eligible IDs over the themes in record order; see EligibleOfExactly and EligibleOfAppend |
| Themes.EligibleOfExactly | src/getEligibleThemes.ts:16-23 | an ID is returned exactly when a frontend theme other than Magento/blank with that ID is deployed |
| Themes.EligibleOfAppend | src/getEligibleThemes.ts:19-22 | themes are taken in record order |
| Themes.NothingDeployed | src/getEligibleThemes.ts:21 | with nothing deployed no theme is eligible |
| Themes.OnlyDeployedTheme | src/getEligibleThemes.ts:16-23 | of two frontend themes only the deployed one is returned |
| Themes.FindTheme | src/getThemeHierarchy.ts:21-23 | `find` returns the first theme with the ID, or None when no theme has it |
| Themes.HierarchyFrom | src/getThemeHierarchy.ts:13-33 | the recursion with its shared accumulator and a level bound; see HierarchyFromShape and HierarchyFromOutcomes |
| Themes.GetThemeHierarchy | src/getThemeHierarchy.ts:13-33 | the recursion started from `[theme]`, with one level more than there are themes; see HierarchyFacts and AcyclicHierarchyEnds |
| Themes.HierarchyFromShape | src/getThemeHierarchy.ts:13-33 | each recursion step puts a parent from the record in front of the accumulator, keeps every parent link, and ends at a theme without a parent |
| Themes.HierarchyFacts | src/getThemeHierarchy.ts:13-33 | the hierarchy is ordered base first, ends with the theme itself, links each theme to its parent, and takes all the others from the record |
| Themes.HierarchyEnds | src/getThemeHierarchy.ts:18-29 | a theme without a parent is its own hierarchy; a missing parent is the error naming both themes |
| Themes.HierarchyStep | src/getThemeHierarchy.ts:21-32 | the parent taken is the first theme of the record with the parent ID, and the recursion continues from it |
| Themes.Ancestors | src/getThemeHierarchy.ts:18-32 | the parents the recursion finds, nearest first: never more than asked for, each from the record |
| Themes.HierarchyFromOutcomes | src/getThemeHierarchy.ts:18-32 | the recursion succeeds, reports a missing parent, or runs out of levels only after finding one ancestor per level |
| Themes.MissingParentIsNotTooDeep | src/getThemeHierarchy.ts:24-29 | the missing-parent error is never the stack overflow |
| Themes.AcyclicHierarchyEnds | src/getThemeHierarchy.ts:13-33 | when the ancestors never repeat, the hierarchy is found or a missing parent is reported, as in the unbounded source |
| MagentoFs.IsMagentoRoot | src/magentoFS.ts:26-31 | the findUp predicate: app, vendor and pub are among the entries; see MagentoRootByMembership |
| MagentoFs.MagentoRootByMembership | src/magentoFS.ts:23-31 | a directory is a Magento root exactly when app, vendor and pub are among its entries, whatever else and in whatever order |
| MagentoFs.SkipWs | src/magentoFS.ts:50 | `\s*` stops at the first non-space after skipping only white space |
| MagentoFs.ArrowEnd | src/magentoFS.ts:50 | `\s*=>\s*` matches exactly around one arrow |
| MagentoFs.HeadEnd | src/magentoFS.ts:50 | `'modules'\s*=>\s*\[` matches at the position it reports |
| MagentoFs.FirstHead | src/magentoFS.ts:50 | the leftmost place where the head matches, or none |
| MagentoFs.ArrayBody | src/magentoFS.ts:49-50 | the capture runs from after the head to the last ']', or is "" when the pattern fails |
| MagentoFs.Items | src/magentoFS.ts:51 | the items are the trimmed ','-pieces of the body, one per piece |
| MagentoFs.WordEnd | src/magentoFS.ts:56 | the run from `i` is made of word characters and stops at a non-word character |
| MagentoFs.ItemMatchAt | src/magentoFS.ts:56 | `'(\w+)'\s*=>\s*([01])` at `i` captures a quoted word and a digit |
| MagentoFs.FirstItemMatch | src/magentoFS.ts:56 | the leftmost match at or after `i`, or none |
| MagentoFs.GetEnabledModules | src/magentoFS.ts:39-62 | an empty or unreadable config is the read error; otherwise the result is the enabled modules of the trimmed items |
| MagentoFs.CollectEnabled | src/magentoFS.ts:53-58 | the loop pushes, item by item, each name whose digit is 1 |
| MagentoFs.EnabledOfExactly | src/magentoFS.ts:53-58 | a module is reported exactly when one of the items enables it |
| MagentoFs.EnabledOfAppend | src/magentoFS.ts:54-58 | items are taken in order |
| MagentoFs.EnabledName | src/magentoFS.ts:53-57 | the name of an item's leftmost match when its digit is 1; see EnabledNameShape and ConfigItem |
| MagentoFs.EnabledNameShape | src/magentoFS.ts:55-57 | an enabled name is a non-empty run of word characters that appears quoted in its item |
| MagentoFs.ConfigItem | src/magentoFS.ts:55-57 | the generated item `'Name' => 1` enables `Name`, and `'Name' => 0` enables nothing, whatever white space surrounds the arrow |
| MagentoFs.NoModulesArray | src/magentoFS.ts:49-51 | a config without a `'modules' => [` head enables no module |
| MagentoFs.GetStaticDirForTheme | src/magentoFS.ts:200-207 | the directory is pub/static/area/vendor/name from the theme ID; an ID without '/' is the TypeError of `path.join` |
| MagentoFs.SplitThemeID | src/magentoFS.ts:205 | "vendor/name" splits into its two halves |
| MagentoFs.JoinStaticDir | src/magentoFS.ts:206 | joining non-empty segments puts one '/' between each two |
| MagentoFs.StaticDirOfThemeID | src/magentoFS.ts:200-207 | a theme with ID "vendor/name" is deployed under pub/static/area/vendor/name |
| MagentoFs.IsLocale | src/magentoFS.ts:190 | the locale regular expression; see LocalesOf and LocaleExamples |
| MagentoFs.LocalesOf | src/magentoFS.ts:190-191 | exactly the directory names that are two letters, optionally followed by `_` and two more, are locales, in order |
| MagentoFs.LocaleExamples | src/magentoFS.ts:190 | en_US, fr and PT_br are locales; en-US, eng, _US and the empty name are not |
| MagentoFs.IsThemeDirName | src/magentoFS.ts:241 | `/^[a-zA-Z0-9-_]+$/`; see ThemesForVendorExactly |
| MagentoFs.ThemesForVendorExactly | src/magentoFS.ts:234-244 | exactly the well-named entries are reported, each as vendor/name |
| MagentoFs.DeployedThemes | src/magentoFS.ts:111-144 | the frontend vendors' themes flattened, then the adminhtml ones; see DeployedThemesExactly and DeployedThemesFrontendFirst |
| MagentoFs.DeployedThemesExactly | src/magentoFS.ts:111-144 | a deployed theme is a well-named directory of a vendor directory of the frontend or adminhtml area, and every such directory is reported |
| MagentoFs.DeployedThemesFrontendFirst | src/magentoFS.ts:138-141 | the list starts with the frontend themes, as many as the frontend area has, and every later theme is an adminhtml one |
| MagentoFs.AreaMember | src/magentoFS.ts:122-131 | an ID is among an area's themes exactly when one of its vendors reports it |
| MagentoFs.ThemeFromPath | src/magentoFS.ts:78-87 | the theme record built from "area/vendor/name"; see ThemeFromPathSplits and StaticDirOfPath |
| MagentoFs.ThemeFromPathSplits | src/magentoFS.ts:78-87 | "area/vendor/name" gives the theme "vendor/name" of that area |
| MagentoFs.StaticDirOfPath | src/magentoFS.ts:78-87 | that theme is deployed under pub/static/area/vendor/name |
| MagentoFs.ThemesFromPaths | src/magentoFS.ts:72-91 | the record is valid and keys each theme by its themeID |
| MagentoFs.ThemesFromPathsComplete | src/magentoFS.ts:72-91 | every listed component becomes a theme of the record |
| Registration.ParseThemeName | src/parseThemeIDFromRegistration.ts:43-58 | an area other than frontend or adminhtml is the error naming it; otherwise the ID is the second and third segments joined by '/' |
| Registration.ParseThemeNameSegments | src/parseThemeIDFromRegistration.ts:43-58 | "area/vendor/name", with any further segments, gives vendor/name in that area |
| Registration.ParseThemeNameTwoSegments | src/parseThemeIDFromRegistration.ts:43-58 | "frontend/Magento" gives the ID "Magento/undefined" |
| Registration.NodeIsRegistrar | src/parseThemeIDFromRegistration.ts:64-67 | a static lookup on a class whose name ends with ComponentRegistrar; see IsThemeRegisterCall |
| Registration.IsThemeRegisterCall | src/parseThemeIDFromRegistration.ts:60-77 | a call is a theme registration exactly when it is `…ComponentRegistrar::register(…ComponentRegistrar::THEME, …)`; a call without arguments is the TypeError |
| Registration.SizeAllAppend | src/parseThemeIDFromRegistration.ts:13-24 | the node count of two stacks is the sum of their counts (the walk's termination measure) |
| Registration.Walk | src/parseThemeIDFromRegistration.ts:13-40 | the stack loop as a function of the stack; see ParseThemeIDFromRegistration, LaterRegistrationWins and CallFreeRegistersNothing |
| Registration.ParseThemeIDFromRegistration | src/parseThemeIDFromRegistration.ts:8-41 | the stack loop returns what the walk function answers: the first registration popped, the error of a non-string name, or nothing |
| Registration.CallFreeRegistersNothing | src/parseThemeIDFromRegistration.ts:15-40 | a tree without calls registers nothing |
| Registration.StatementStep | src/parseThemeIDFromRegistration.ts:18-20 | popping an expression statement pushes its expression |
| Registration.RegisterCallStep | src/parseThemeIDFromRegistration.ts:26-39 | popping a theme-register call ends the walk with the theme it names |
| Registration.RegistrationFile | src/parseThemeIDFromRegistration.ts:8-41 | a file holding a `use` statement and the register call yields the registered theme |
| Registration.LaterRegistrationWins | src/parseThemeIDFromRegistration.ts:15-24 | with two register calls, the stack pops the later one first |
| Registration.RegisteredTheme | src/parseThemeIDFromRegistration.ts:27-38 | the parsed second argument of a register call, or the error naming its kind; see NonStringNameFails |
| Registration.NonStringNameFails | src/parseThemeIDFromRegistration.ts:30-36 | a register call whose name is not a string literal is the error naming its kind |
| Registration.NonStringRegistered | src/parseThemeIDFromRegistration.ts:30-36 | the walk over such a call ends with that error |
| Registration.NotAStringNamesFile | src/parseThemeIDFromRegistration.ts:31-35 | the message ends with the registration file path |
| RequireConfig.GetShimsForModule | src/requireConfig.ts:97-109 | no shim gives None, a bare list becomes `{deps: list}`, and a shim object is returned as it is |
| RequireConfig.GetShimsForModuleIdempotent | src/requireConfig.ts:97-109 | normalising a normalised shim changes nothing |
| RequireConfig.JsonQuote | src/requireConfig.ts:132 | `JSON.stringify` of one string; see PlainTextQuotedAsIs and QuoteAll |
| RequireConfig.EscapeChar | src/requireConfig.ts:132 | `JSON.stringify` escapes quotes, backslashes and control characters, and leaves every other character as it is |
| RequireConfig.PlainTextEscapedAsIs | src/requireConfig.ts:132 | text without quotes, backslashes or control characters is not escaped |
| RequireConfig.PlainTextQuotedAsIs | src/requireConfig.ts:132 | such text is quoted as is |
| RequireConfig.JsonStringArray | src/requireConfig.ts:132 | `JSON.stringify(deps, null, 2)` is "[]" for no deps, and otherwise opens with "[\n" and closes with "\n]" |
| RequireConfig.QuoteAll | src/requireConfig.ts:132 | one quoted item per dep |
| RequireConfig.PlainListLayout | src/requireConfig.ts:132 | plain IDs are written one per line, quoted, indented two spaces and separated by commas |
| RequireConfig.GenerateBundleRequireConfig | src/requireConfig.ts:118-137 | the text is the `bundles` head naming `balerbundles/<id>`, then the JSON list of deps, then the tail, then the original config |
| RequireConfig.RawConfigRecoverable | src/requireConfig.ts:118-137 | cutting the generated text after its head, list and tail gives back the original config |
| RequireConfig.CapturedDeps | src/requireConfig.ts:58-65 | the deps of every `require.config` call that has them, in call order; see CapturedDepsAppend and DepsCapture.Config |
| RequireConfig.CapturedDepsAppend | src/requireConfig.ts:60-65 | later `require.config` calls only append to the captured deps |
| RequireConfig.DepsCapture.Config | src/requireConfig.ts:62-65 | the hook appends a call's `deps` when it has some, and records the call |
| RequireConfig.EvaluateRawConfig | src/requireConfig.ts:45-74 | the merged config comes back with `deps` replaced by every captured dep, in call order |
| RequireConfig.GetRequireConfigFromDir | src/requireConfig.ts:26-43 | an empty or unreadable file is the read error; a failed evaluation is the evaluation error with its message; otherwise the raw text and the evaluated config |
| Estree.CallsInNode | src/parseJavaScriptDeps.ts:36-37 | every node the query returns is a call to the name |
| Estree.CallsIn | src/parseJavaScriptDeps.ts:36-37 | the same holds for a list of sibling nodes |
| Estree.Query | src/parseJavaScriptDeps.ts:36-37 | `esquery.query` returns only calls to the name |
| Estree.CallsInAppend | src/parseJavaScriptDeps.ts:36-37 | the query distributes over the statements of a program |
| Estree.TopLevelCallFoundFirst | src/parseJavaScriptDeps.ts:36-37 | a top-level call is found before anything nested in its arguments |
| JsParser.Parse | src/jsParser.ts:10-16 | the loose parser is used exactly when asked for |
| JsParser.Cleaned | src/jsParser.ts:27-30 | an input opening with a brace is wrapped in parentheses, and any other input is left as it is |
| JsParser.CleanedIdempotent | src/jsParser.ts:27-30 | cleaning twice is cleaning once |
| JsParser.Attempt | src/jsParser.ts:33-42 | the first statement's object expression, or the error |
| JsParser.ParseObjectExpression | src/jsParser.ts:23-50 | a strict failure is retried once, loosely, on the cleaned text; a loose failure is final |
| JsParser.LooseFailureIsFinal | src/jsParser.ts:43-49 | a successful strict parse is never retried, and a loose failure is not retried |
| JsParser.BracedInputIsWrapped | src/jsParser.ts:27-30 | `{ a: 1 }` reaches the parser as `({ a: 1 })` |
| JsDeps.StringValues | src/parseJavaScriptDeps.ts:104-117 | the string-literal elements' values in order; see StringValuesExactly |
| JsDeps.ArrayDeps | src/parseJavaScriptDeps.ts:104-117 | the string literals and the flag, or the TypeError for a hole; see ExtractDepsFromArrayExpression |
| JsDeps.StringValuesExactly | src/parseJavaScriptDeps.ts:104-117 | the deps are exactly the string-literal elements, in order; the flag is raised exactly when some element is not a string literal |
| JsDeps.ExtractDepsFromArrayExpression | src/parseJavaScriptDeps.ts:104-117 | the loop returns the string literals and the flag; an elided element is the TypeError |
| JsDeps.CombineAssociative | src/parseJavaScriptDeps.ts:47-54 | combining results in sequence is associative |
| JsDeps.CombineNoDeps | src/parseJavaScriptDeps.ts:47-54 | a step that contributes nothing changes nothing |
| JsDeps.GatherAppend | src/parseJavaScriptDeps.ts:41-56 | the per-call results of two runs of calls combine in order |
| JsDeps.GatherStep | src/parseJavaScriptDeps.ts:41-56 | one more call extends the result by that call's result |
| JsDeps.GatherErrorIsFinal | src/parseJavaScriptDeps.ts:41-56 | an error stops the walk |
| JsDeps.DefineDeps | src/parseJavaScriptDeps.ts:35-59 | the define deps over the program's calls; see GetAMDDefineDeps and DefineWithoutArrayContributesNothing |
| JsDeps.RequireDeps | src/parseJavaScriptDeps.ts:68-98 | the require deps over the program's calls; see GetAMDRequireDeps |
| JsDeps.JavaScriptDeps | src/parseJavaScriptDeps.ts:15-29 | the define deps, then the require deps, of the parsed input; see ParseJavaScriptDeps |
| JsDeps.GetAMDDefineDeps | src/parseJavaScriptDeps.ts:35-59 | the loop gives the array deps of each define's first argument, then of its second, over the calls in query order |
| JsDeps.GetAMDRequireDeps | src/parseJavaScriptDeps.ts:68-98 | the loop adds the array deps of a first-argument array and the value of a string literal, flags a non-string literal, and skips a call without arguments |
| JsDeps.ParseJavaScriptDeps | src/parseJavaScriptDeps.ts:15-29 | the define deps, then the require deps; the flag of either; a parse error is the parser's error |
| JsDeps.DepsOfStatementsConcatenate | src/parseJavaScriptDeps.ts:35-98 | the deps of a program are those of its statements, in order |
| JsDeps.DefineWithoutArrayContributesNothing | src/parseJavaScriptDeps.ts:45-55 | a define without an array among its first two arguments adds nothing |
| JsDeps.NamedDefineExample | src/parseJavaScriptDeps.ts:50-55 | `define('foo', ['jquery', 'mage/apply/main'], …)` gives the two deps, fully analysed |
| JsDeps.PartlyAnalysableRequireExample | src/parseJavaScriptDeps.ts:81-85 | `require([foo, "bar"], …)` gives "bar" and raises the flag |
| TemplateDeps.OpenerLength | src/parseTemplateDeps.ts:149-151 | `<?=` has length 3, `<?php` has length 5, and anything else has length 0 |
| TemplateDeps.FindClose | src/parseTemplateDeps.ts:149-151 | the first `?>` at or after the start, or none |
| TemplateDeps.ReplacePHPDelimiters | src/parseTemplateDeps.ts:149-151 | each PHP span becomes the placeholder; see NoOpenerUnchanged, PlainPrefixKept and SpanReplaced |
| TemplateDeps.SpanAt | src/parseTemplateDeps.ts:149-151 | the lazy match spans an opener, a non-empty body and the first `?>` after it |
| TemplateDeps.PlainPrefixKept | src/parseTemplateDeps.ts:149-151 | text before the first '<' is copied unchanged |
| TemplateDeps.NoOpenerUnchanged | src/parseTemplateDeps.ts:149-151 | text without `<?` comes back unchanged |
| TemplateDeps.OpenerLengthOf | src/parseTemplateDeps.ts:150 | either opener is recognised, whatever follows it |
| TemplateDeps.FindCloseAt | src/parseTemplateDeps.ts:150 | the search stops at the first `?>` |
| TemplateDeps.CloseAfterBody | src/parseTemplateDeps.ts:150 | a body free of `?>` and followed by `?>` is one span |
| TemplateDeps.SpanReplaced | src/parseTemplateDeps.ts:149-151 | one complete span becomes PHP_DELIM_PLACEHOLDER, whichever opener it has |
| TemplateDeps.Dedup | src/parseTemplateDeps.ts:28 | `Array.from(new Set(xs))`; see DedupSound and DedupPrefix |
| TemplateDeps.DedupSound | src/parseTemplateDeps.ts:28 | `Array.from(new Set(xs))` has the same values, none twice, and changes nothing for a list without repeats |
| TemplateDeps.DedupPrefix | src/parseTemplateDeps.ts:28 | values keep their first-occurrence order |
| TemplateDeps.CollectStep | src/parseTemplateDeps.ts:164-167 | one more element extends the result by its names |
| TemplateDeps.CollectErrorIsFinal | src/parseTemplateDeps.ts:164-167 | an error stops the collection |
| TemplateDeps.PropertyNames | src/parseTemplateDeps.ts:177-189 | the property names of an object literal, or the TypeError for anything else; see CollectNamesExactly |
| TemplateDeps.CollectNamesExactly | src/parseTemplateDeps.ts:177-189 | the names are exactly the string-literal and identifier keys, in order |
| TemplateDeps.GetPropertyNamesFromObjExpression | src/parseTemplateDeps.ts:177-189 | the loop returns the property names; a value that is not an object is the TypeError |
| TemplateDeps.FindMageInit | src/parseTemplateDeps.ts:124-126 | the first property keyed by the identifier mageInit, or none |
| TemplateDeps.DataMageInitDeps | src/parseTemplateDeps.ts:139-142 | the keys of the attribute's object literal; see ExtractDepsFromDataMageInitAttr |
| TemplateDeps.ExtractDepsFromDataMageInitAttr | src/parseTemplateDeps.ts:139-142 | the property names of the parsed attribute |
| TemplateDeps.DataBindDeps | src/parseTemplateDeps.ts:121-134 | the keys of the binding's mageInit value; see ExtractMageInitDepsFromDataBind |
| TemplateDeps.ExtractMageInitDepsFromDataBind | src/parseTemplateDeps.ts:121-134 | the binding is parsed in braces; a missing mageInit is the error; otherwise the names of its value |
| TemplateDeps.XMagentoInitDeps | src/parseTemplateDeps.ts:160-170 | the component names of every selector, in order; see ExtractDepsFromXMagentoInit |
| TemplateDeps.ExtractDepsFromXMagentoInit | src/parseTemplateDeps.ts:160-170 | the component names of every selector, selector after selector |
| TemplateDeps.RunPrefixStep | src/parseTemplateDeps.ts:24 | one more event takes one more handler step |
| TemplateDeps.Step | src/parseTemplateDeps.ts:52-112 | one handler step of the collector; see StepKeepsFindings and the NodeCollector methods |
| TemplateDeps.StepKeepsFindings | src/parseTemplateDeps.ts:52-112 | a handler step never drops collected deps and never clears the flag |
| TemplateDeps.AfterExtractKeepsFindings | src/parseTemplateDeps.ts:57-63 | a try/catch extraction keeps the deps and the flag |
| TemplateDeps.OpenTagKeepsFindings | src/parseTemplateDeps.ts:52-83 | onopentag keeps the deps and the flag |
| TemplateDeps.CloseTagKeepsFindings | src/parseTemplateDeps.ts:90-112 | onclosetag keeps the deps and the flag |
| TemplateDeps.RunKeepsFindings | src/parseTemplateDeps.ts:24 | a whole run keeps the deps and the flag |
| TemplateDeps.FailedMageInitSetsFlag | src/parseTemplateDeps.ts:56-64 | a failing data-mage-init extraction raises the flag and adds nothing |
| TemplateDeps.StepKeepsBufferInScript | src/parseTemplateDeps.ts:85-88 | text is buffered only inside a script being collected |
| TemplateDeps.OpenTagKeepsBuffer | src/parseTemplateDeps.ts:74-82 | an open tag leaves the buffer alone and can only enter a script state |
| TemplateDeps.CloseTagConsumesBuffer | src/parseTemplateDeps.ts:90-112 | a close tag inside a script empties the buffer and leaves both script states |
| TemplateDeps.ScriptFlagPropagates | src/parseTemplateDeps.ts:101-108 | an incomplete analysis of a script's JavaScript raises the flag |
| TemplateDeps.TemplateDepsAreDistinct | src/parseTemplateDeps.ts:26-30 | the answer lists every collected dep once, in first-occurrence order |
| TemplateDeps.NodeCollector.constructor | src/parseTemplateDeps.ts:44-50 | no deps, no flag, no script state, and an empty buffer |
| TemplateDeps.NodeCollector.Absorb | src/parseTemplateDeps.ts:57-63 | pushes the deps found, or raises the flag |
| TemplateDeps.NodeCollector.OnOpenTag | src/parseTemplateDeps.ts:52-83 | the new state is the onopentag step of the old |
| TemplateDeps.NodeCollector.EnterScript | src/parseTemplateDeps.ts:74-82 | the script type, text/javascript when it is missing, picks the state entered |
| TemplateDeps.NodeCollector.OnText | src/parseTemplateDeps.ts:85-88 | the new state is the ontext step of the old |
| TemplateDeps.NodeCollector.OnCloseTag | src/parseTemplateDeps.ts:90-112 | the new state is the onclosetag step of the old |
| TemplateDeps.TemplateDeps | src/parseTemplateDeps.ts:17-31 | the collector over the tokenised cleaned input, deduplicated; see ParseTemplateDeps and TemplateDepsAreDistinct |
| TemplateDeps.ParseTemplateDeps | src/parseTemplateDeps.ts:17-31 | the collector run over the tokenised cleaned input, deduplicated |
| TransformAmd.IsAMDWithDefine | src/transformAMD.ts:91-93 | `RE_DEFINE.test(source)`: some position matches `define\s*\(`; see DefineAtIsRegex and RenameModuleSucceedsIffDefine |
| TransformAmd.IsNamedAMD | src/transformAMD.ts:95-104 | some position matches `define\s*\(\s*['"]`; see NamedImpliesDefine |
| TransformAmd.RenameModule | src/transformAMD.ts:75-86 | the ID argument after the first match, or the BalerError without one; see RenameModuleSucceedsIffDefine and RenameModuleOnlyInserts |
| TransformAmd.WrapNonShimmedModule | src/transformAMD.ts:44-50 | the stub, then the source; see NonShimmedKeepsSource and NonShimmedIsNamed |
| TransformAmd.WrapShimmedModule | src/transformAMD.ts:56-69 | the filled-in template split at "SPLIT", with the source between its first two pieces; see ShimmedPieces, ShimmedKeepsSource and ShimmedExportsCutShort |
| TransformAmd.WrapTextModule | src/transformAMD.ts:19-33 | the MagicString error for an empty source; otherwise the split template around the escaped text; see TextKeepsSource and TextIsNamed |
| TransformAmd.SkipWs | src/transformAMD.ts:71 | `\s*` skips exactly the white space that follows |
| TransformAmd.DefineEnd | src/transformAMD.ts:71 | a match ends right after its '(' |
| TransformAmd.DefineAtIsRegex | src/transformAMD.ts:71 | the match test is the regular expression `define\s*\(` read literally, and a match has one end |
| TransformAmd.NamedImpliesDefine | src/transformAMD.ts:91-104 | a named module always passes the define test |
| TransformAmd.FirstDefineFrom | src/transformAMD.ts:77 | the leftmost match, or none when the source has no match |
| TransformAmd.RenameModuleSucceedsIffDefine | src/transformAMD.ts:75-93 | renameModule succeeds exactly for the sources isAMDWithDefine accepts |
| TransformAmd.RenameModuleOnlyInserts | src/transformAMD.ts:75-85 | `'<id>', ` is inserted right after the first match, and the source is otherwise unchanged |
| TransformAmd.RenamedModuleIsNamed | src/transformAMD.ts:75-104 | a renamed module is a named module |
| TransformAmd.SkipWsSamePrefix | src/transformAMD.ts:71 | skipping white space only looks at the text it skips |
| TransformAmd.RenameLeadingDefine | src/transformAMD.ts:75-85 | in an anonymous module that starts with `define (`, the ID goes right after the parenthesis |
| TransformAmd.JsonCompactArray | src/transformAMD.ts:58-60 | `JSON.stringify(deps)` is bracketed, and "[]" exactly for no deps |
| TransformAmd.NonShimmedKeepsSource | src/transformAMD.ts:44-50 | the source follows the stub whole |
| TransformAmd.FirstMarkerFrom | src/transformAMD.ts:22 | the leftmost "SPLIT" at or after a position, or none |
| TransformAmd.SplitAtMarker | src/transformAMD.ts:20-22 | `split('SPLIT')`'s first two pieces: a marker-free prefix ending at the first marker, and the marker-free text after it up to the next one |
| TransformAmd.SplitAtMarkerOf | src/transformAMD.ts:20-22 | a template whose halves hold no marker splits back into those halves |
| TransformAmd.SplitAtMarkerCut | src/transformAMD.ts:20-22 | a marker in the second half cuts the second piece at or before it |
| TransformAmd.ShimmedHeadMarkerFree | src/transformAMD.ts:57-62 | a marker-free ID and deps JSON give a marker-free head |
| TransformAmd.ShimmedTailMarkerFree | src/transformAMD.ts:62-65 | a marker-free exports name gives a marker-free tail |
| TransformAmd.TextHalvesMarkerFree | src/transformAMD.ts:20-22 | a marker-free ID gives a marker-free text template head and closing |
| TransformAmd.Overwritten | src/transformAMD.ts:24-31 | the overwritten range plus the appended rest are the escaped text whole |
| TransformAmd.ShimmedKeepsSource | src/transformAMD.ts:56-69 | when the ID, the deps' JSON and the exports name hold no "SPLIT", the source sits whole between the template's head and tail |
| TransformAmd.ShimmedPieces | src/transformAMD.ts:56-69 | whatever the inputs, the source sits whole after a prefix of the head that starts with `define('` |
| TransformAmd.ShimmedExportsCutShort | src/transformAMD.ts:57-66 | an exports name holding "SPLIT" cuts the template's tail short, so the module ends before its closing `});` |
| TransformAmd.TextKeepsSource | src/transformAMD.ts:19-33 | a module is written exactly for a non-empty source; when the ID holds no "SPLIT", the escaped text sits whole between the template's head and its closing quote |
| TransformAmd.TextPieces | src/transformAMD.ts:19-33 | whatever the ID, the escaped text sits whole after a prefix of the head that starts with `define('` |
| TransformAmd.NamedPrefix | src/transformAMD.ts:95-104 | a text starting with `define('` is a named module |
| TransformAmd.NonShimmedIsNamed | src/transformAMD.ts:44-50 | the non-shimmed wrapper produces a named module |
| TransformAmd.ShimmedIsNamed | src/transformAMD.ts:56-69 | the shimmed wrapper produces a named module, whatever the ID, deps and exports |
| TransformAmd.TextIsNamed | src/transformAMD.ts:19-33 | the text wrapper fails exactly for an empty source, and otherwise produces a named module, whatever the ID |
| TransformAmd.ShimWithoutDepsOrExports | src/transformAMD.ts:57-66 | a shim without deps or exports gives the array `[]` and `window['undefined']`, around the whole source when the ID holds no "SPLIT" |
| TransformAmd.ShimDepsExample | src/transformAMD.ts:58-60 | `{deps: ['log']}` is written compactly as `["log"]` |
| DotGraph.DotText | src/generateDotGraph.ts:8-15 | the header, the edge lines and the brace, joined with newlines; see DotTextLines, EdgeHasLine and LineHasEdge |
| DotGraph.GenerateDotGraph | src/generateDotGraph.ts:8-15 | the loop builds the header, one line per edge in key order, and the brace, joined with newlines |
| DotGraph.EdgeLinesCount | src/generateDotGraph.ts:10-12 | one line per edge |
| DotGraph.EdgeHasLine | src/generateDotGraph.ts:10-12 | every edge has its line |
| DotGraph.LineHasEdge | src/generateDotGraph.ts:10-12 | every edge line stands for an edge |
| DotGraph.DotTextLines | src/generateDotGraph.ts:8-15 | the text has one line per edge, plus the header and the closing brace |
| DotGraph.SimpleGraph | src/generateDotGraph.ts:8-15 | {main: [foo], foo: [bar], bar: []} gives the two edge lines |
| DependencyGraphs.AddPHTML | src/createDependencyGraph.ts:14-31 | fails exactly for a node added before, with the message; otherwise the file is a node and an entry |
| DependencyGraphs.AddAMD | src/createDependencyGraph.ts:37-65 | fails exactly for a node added before; otherwise the module is a node, and an entry exactly when isEntry |
| DependencyGraphs.DependencyGraph.constructor | src/createDependencyGraph.ts:6-8 | a new graph is empty |
| DependencyGraphs.DependencyGraph.AddPHTMLDependency | src/createDependencyGraph.ts:14-31 | the fields become those of the addition, or stay unchanged on the error |
| DependencyGraphs.DependencyGraph.AddAMDDependency | src/createDependencyGraph.ts:37-65 | the fields become those of the addition, or stay unchanged on the error |
| DependencyGraphs.DotText | src/createDependencyGraph.ts:85-97 | the edge lines and the entry squares between the header and the brace; see NoEntriesIsPlainDot and DotLineCount |
| DependencyGraphs.DependencyGraph.ToDOTGraph | src/createDependencyGraph.ts:85-97 | the edge lines, then one orange square per entry, between the header and the brace |
| DependencyGraphs.AddedNodeIsTaken | src/createDependencyGraph.ts:14-65 | a node added once cannot be added again, as either kind |
| DependencyGraphs.AddKeepsOtherNodes | src/createDependencyGraph.ts:14-65 | an addition binds the node to its deps, appends it to both key orders, and leaves every other node alone |
| DependencyGraphs.NoEntriesIsPlainDot | src/createDependencyGraph.ts:85-97 | without entries the text is generateDotGraph's |
| DependencyGraphs.DotLineCount | src/createDependencyGraph.ts:85-97 | the number of lines is 2 plus the edges plus the entries |
| DependencyGraphs.HasDep | src/createDependencyGraph.ts:67-69 | `hasDep(key)`; see NodesAreKeys |
| DependencyGraphs.NodesAreKeys | src/createDependencyGraph.ts:67-69 | `hasDep` holds exactly for the graph's keys |
| DependencyGraphs.AddFresh | src/createDependencyGraph.ts:14-65 | adding a fresh node succeeds, in terms of the record contents |
| DependencyGraphs.AddModuleThenFile | src/createDependencyGraph.ts:14-65 | a non-entry module, then a file: both keys in order, only the file an entry |
| DependencyGraphs.AddEntryThenModule | src/createDependencyGraph.ts:37-65 | an entry, then a module: both keys, one entry |
| DependencyGraphs.DistinctAdditions | src/createDependencyGraph.ts:14-65 | four distinct additions keep insertion order and mark the AMD entry and the file as entries |
| DependencyGraphs.KitchenSink | src/createDependencyGraph.ts:14-65 | the mage/bootstrap, jquery, … sequence succeeds, with the expected keys and entries |
| DependencyGraphs.SinglePHTMLDot | src/createDependencyGraph.ts:85-97 | one file with two edges is drawn as an orange square with its two edges |
| DependencyGraphs.SingleAMDDot | src/createDependencyGraph.ts:85-97 | a non-entry module gets no square |
| Bundle.DirectDeps | src/computeDepsForBundle.ts:29 | `graph[dep]`, with none for a missing key |
| Bundle.SkipKeepsUnbundled | src/computeDepsForBundle.ts:23-25 | skipping does not raise the termination measure |
| Bundle.BundleLowersUnbundled | src/computeDepsForBundle.ts:27-32 | bundling a new module lowers it |
| Bundle.ComputeDepsForBundle | src/computeDepsForBundle.ts:16-36 | the shift/unshift loop over a copy of the entries returns exactly the depth-first walk `DepsForBundle` |
| Bundle.Walk | src/computeDepsForBundle.ts:20-33 | the depth-first loop as a function of the stack and the bundle; see WalkExtends, WalkComplete and WalkSplits |
| Bundle.DepsForBundle | src/computeDepsForBundle.ts:16-36 | the walk from the entry points with nothing bundled; see DepsForBundleFacts |
| Bundle.WalkExtends | src/computeDepsForBundle.ts:20-33 | the walk only appends |
| Bundle.WalkDistinctNoBuiltIns | src/computeDepsForBundle.ts:23-27 | nothing is bundled twice, and no built-in is bundled |
| Bundle.WalkJustified | src/computeDepsForBundle.ts:27-32 | every bundled module is an entry or a direct dependency of an earlier bundled module |
| Bundle.JustifiedWider | src/computeDepsForBundle.ts:27-32 | justification survives a longer prefix |
| Bundle.JustifiedExtends | src/computeDepsForBundle.ts:27-32 | justification survives a longer bundle |
| Bundle.WalkComplete | src/computeDepsForBundle.ts:20-33 | every non-built-in reachable from the stack is bundled |
| Bundle.PendingAfterSkip | src/computeDepsForBundle.ts:23-25 | skipping keeps every pending edge pending |
| Bundle.PendingAfterBundle | src/computeDepsForBundle.ts:27-32 | bundling keeps every pending edge pending |
| Bundle.WalkSplits | src/computeDepsForBundle.ts:20-33 | depth-first: the subtree of the first item is bundled whole before the rest |
| Bundle.WalkSplitsSkip | src/computeDepsForBundle.ts:23-25 | the same, when the first item is skipped |
| Bundle.WalkSplitsBundle | src/computeDepsForBundle.ts:27-32 | the same, when the first item is bundled |
| Bundle.DepsForBundleFacts | src/computeDepsForBundle.ts:16-36 | the result has no duplicates and no built-ins, is justified by the graph, and holds every reachable module |
| Bundle.EntryPointsInOrder | src/computeDepsForBundle.ts:18-33 | each entry's subtree follows everything the earlier entries bundled |
| Bundle.OneEntryNoCycles | src/computeDepsForBundle.ts:16-36 | {a: [b], b: [c, d], c: [d], d: []} from [a] gives [a, b, c, d] |
| Bundle.CycleInFirstEntry | src/computeDepsForBundle.ts:22-25 | {a: [b], b: [a], c: []} from [a, c] gives [a, b, c]: the cycle is cut |
| Bundle.ExcludedFileIsBundled | src/computeDepsForBundle.ts:23 | only built-ins are skipped: the translation file is bundled |
| Bundle.BundleStep | src/computeDepsForBundle.ts:27-32 | a new head is bundled and its deps go in front of the stack |
| Bundle.SkipStep | src/computeDepsForBundle.ts:23-25 | a head that is already bundled is dropped |
| Tracer.AddModule | src/traceAMDDependencies.ts:54-72 | a new module becomes the last key with no edges, queued with its path and issuer exactly when it is a script |
| Tracer.Enqueue | src/traceAMDDependencies.ts:43-73 | a module seen before changes nothing; otherwise it becomes a key; other modules' lists are unchanged and the state stays well formed |
| Tracer.Push | src/traceAMDDependencies.ts:129 | the module's list grows by the target, and nothing else changes |
| Tracer.SeedEntry | src/traceAMDDependencies.ts:78-93 | the resolved ID is recorded and queued, then its plugin with it as issuer |
| Tracer.Seed | src/traceAMDDependencies.ts:75-94 | the state after seeding is well formed |
| Tracer.SeedPrefix | src/traceAMDDependencies.ts:78 | one more entry is one more seeding step |
| Tracer.Link | src/traceAMDDependencies.ts:150-151 | an edge from the module to the target, then the target queued |
| Tracer.MixinStep | src/traceAMDDependencies.ts:127-134 | one mixin adds an edge to it, resolved once more, and queues it |
| Tracer.MixinSteps | src/traceAMDDependencies.ts:127-135 | the mixins append their targets to the module's list |
| Tracer.ResolvedDepStep | src/traceAMDDependencies.ts:146-161 | an edge to the resolved module when there is one, then to the plugin when there is one |
| Tracer.DepStep | src/traceAMDDependencies.ts:137-162 | the state stays well formed, and only the module's list changes among the old keys |
| Tracer.DepStepEdges | src/traceAMDDependencies.ts:137-162 | one dependency appends exactly its targets |
| Tracer.DepSteps | src/traceAMDDependencies.ts:137-162 | the dependencies append all their targets, in order |
| Tracer.DepStepsPrefix | src/traceAMDDependencies.ts:137 | one more dependency is one more step |
| Tracer.MixinStepsPrefix | src/traceAMDDependencies.ts:127 | one more mixin is one more step |
| Tracer.Visit | src/traceAMDDependencies.ts:97-163 | the head leaves the queue; an unreadable file is a warning; a parse error ends the walk |
| Tracer.OneMoreKnown | src/traceAMDDependencies.ts:54 | a new key lowers the count of unmet modules by one |
| Tracer.EnqueueLowersPotential | src/traceAMDDependencies.ts:43-73 | queueing does not raise the potential |
| Tracer.LinkLowersPotential | src/traceAMDDependencies.ts:150-151 | nor does an edge |
| Tracer.MixinStepsLowerPotential | src/traceAMDDependencies.ts:127-135 | nor do the mixins |
| Tracer.DepStepLowersPotential | src/traceAMDDependencies.ts:137-162 | nor does a dependency |
| Tracer.DepStepsLowerPotential | src/traceAMDDependencies.ts:137-162 | nor do the dependencies |
| Tracer.VisitLowersPotential | src/traceAMDDependencies.ts:97-163 | every read lowers it, so the walk ends on cyclic graphs too |
| Tracer.Run | src/traceAMDDependencies.ts:97-163 | the finished walk leaves an empty queue and a well-formed state |
| Tracer.SeedWithin | src/traceAMDDependencies.ts:75-94 | seeding only names modules the resolver can name |
| Tracer.EnqueueNewModule | src/traceAMDDependencies.ts:43-73 | a module met for the first time becomes the last key, with no edges |
| Tracer.BuiltInIsOnlyAnEdge | src/traceAMDDependencies.ts:139-144 | a built-in is an edge and nothing more |
| Tracer.PluginOnlyDependency | src/traceAMDDependencies.ts:146-161 | "domReady!" adds only the plugin edge |
| Tracer.UnreadableModuleWarns | src/traceAMDDependencies.ts:103-113 | an unreadable module adds exactly one warning, naming the module, its path and its issuer |
| Tracer.ReadModuleEdges | src/traceAMDDependencies.ts:115-162 | reading fills the list: first the mixins, then the dependency targets |
| Tracer.ParseErrorEndsWalk | src/traceAMDDependencies.ts:115 | a rejected source ends the walk with its error |
| Tracer.ClosedAfterEnqueue | src/traceAMDDependencies.ts:43-73 | queueing keeps every edge pointing at a built-in or a key |
| Tracer.ClosedAfterLink | src/traceAMDDependencies.ts:150-151 | so does an edge |
| Tracer.ClosedAfterDepStep | src/traceAMDDependencies.ts:137-162 | so does a dependency |
| Tracer.ClosedAfterMixinSteps | src/traceAMDDependencies.ts:127-135 | so do the mixins |
| Tracer.ClosedAfterDepSteps | src/traceAMDDependencies.ts:137-162 | so do the dependencies |
| Tracer.ClosedAfterVisit | src/traceAMDDependencies.ts:97-163 | so does a read |
| Tracer.ClosedAfterRun | src/traceAMDDependencies.ts:97-163 | so does the whole walk |
| Tracer.SeedFacts | src/traceAMDDependencies.ts:75-94 | every resolved entry is a key of the seeded graph |
| Tracer.EntryIDs | src/traceAMDDependencies.ts:80 | one resolved ID per entry |
| Tracer.Trace | src/traceAMDDependencies.ts:32-166 | seeding, then the breadth-first walk; see TraceResultFacts |
| Tracer.TraceResultFacts | src/traceAMDDependencies.ts:32-166 | one resolved ID per entry, in entry order, each a key; every edge leads to a built-in or a key |
| Tracer.DependencyTracer.constructor | src/traceAMDDependencies.ts:37-41 | empty graph, queue and warnings |
| Tracer.DependencyTracer.QueueDependency | src/traceAMDDependencies.ts:43-73 | the state becomes the one Enqueue specifies |
| Tracer.DependencyTracer.AddModuleToGraph | src/traceAMDDependencies.ts:54-72 | the state becomes the one AddModule specifies |
| Tracer.DependencyTracer.AddEdge | src/traceAMDDependencies.ts:129 | the state becomes the one Push specifies |
| Tracer.DependencyTracer.VisitNext | src/traceAMDDependencies.ts:97-163 | the state becomes the one Visit specifies, or the parse error is returned |
| Tracer.DependencyTracer.VisitMixins | src/traceAMDDependencies.ts:127-135 | the state becomes the one MixinSteps specifies |
| Tracer.DependencyTracer.VisitAll | src/traceAMDDependencies.ts:97-163 | the loop reaches the state Run specifies |
| Tracer.DependencyTracer.VisitMixin | src/traceAMDDependencies.ts:127-134 | the state becomes the one MixinStep specifies |
| Tracer.DependencyTracer.AddEntry | src/traceAMDDependencies.ts:78-93 | the state becomes the one SeedEntry specifies |
| Tracer.DependencyTracer.VisitDeps | src/traceAMDDependencies.ts:137-162 | the state becomes the one DepSteps specifies |
| Tracer.DependencyTracer.VisitDep | src/traceAMDDependencies.ts:137-162 | the state becomes the one DepStep specifies |
| Tracer.TraceAMDDependencies | src/traceAMDDependencies.ts:32-166 | seeding and the breadth-first loop return the graph, warnings and resolved entries that Trace specifies |
| OptimizeThemes.GetThemeByID | src/optimizeThemes.ts:183-193 | the theme stored under the ID, or the not-found error naming it |
| OptimizeThemes.ThrowOnDisallowedTheme | src/optimizeThemes.ts:195-207 | a non-frontend theme is refused first, then Magento/blank |
| OptimizeThemes.GetEntryPointsFromConfig | src/optimizeThemes.ts:209-222 | the captured deps when there are any, otherwise the error naming the theme |
| OptimizeThemes.PrepareThemes | src/optimizeThemes.ts:27-32 | each requested ID looked up and checked in order; see PrepareThemesExactly |
| OptimizeThemes.PrepareThemesExactly | src/optimizeThemes.ts:27-32 | the requested IDs pass exactly when each does, giving their themes in order; otherwise the first failure's error |
| OptimizeThemes.PrepareThemesOk | src/optimizeThemes.ts:27-32 | when every ID passes, the themes come back in order |
| OptimizeThemes.PrepareThemesErr | src/optimizeThemes.ts:27-32 | otherwise the error is the first failing ID's |
| OptimizeThemes.EligibleThemesAllowed | src/optimizeThemes.ts:28-29 | an eligible theme passes both guards when the store keys themes by ID |
| OptimizeThemes.EligibleThemesPrepare | src/optimizeThemes.ts:27-32 | optimising every eligible theme passes the guards |
| OptimizeThemes.CoreBundleFiles | src/optimizeThemes.ts:101-118 | the bundle and its map under balerbundles, then the config and its map at the locale root |
| OptimizeThemes.WritePlan | src/optimizeThemes.ts:146-175 | one attempt per file and locale, file after file; see WritePlanOrder |
| OptimizeThemes.WritePlanOrder | src/optimizeThemes.ts:146-175 | one write per (file, locale) pair, in file-major order, each to join(root, staticDir, locale, file) |
| OptimizeThemes.WriteResults | src/optimizeThemes.ts:163-168 | one result per attempt, successful exactly when the path could be written |
| OptimizeThemes.FailedWrites | src/optimizeThemes.ts:126 | the failed attempts' files; see FailedWritesExactly and FailedWritesAppend |
| OptimizeThemes.FailedWritesExactly | src/optimizeThemes.ts:126 | one entry per failed attempt, and a file is listed exactly when one of its attempts failed |
| OptimizeThemes.FailedWritesAppend | src/optimizeThemes.ts:126 | the failures of a run are those of its first part followed by those of the rest, so they keep attempt order |
| OptimizeThemes.FailedWritesOne | src/optimizeThemes.ts:126 | one attempt is reported, by its file, exactly when it failed |
| OptimizeThemes.FailedWritesCount | src/optimizeThemes.ts:126 | as many entries as failed attempts |
| OptimizeThemes.FailedWritesMembers | src/optimizeThemes.ts:126 | a file is listed exactly when one of its attempts failed |
| OptimizeThemes.AllWritesSucceed | src/optimizeThemes.ts:126 | no failed attempt means nothing is reported |
| Build.SelectThemes | src/cli/build.ts:12-36 | the error when some requested IDs are not eligible; otherwise the requested IDs, or every eligible theme when none were given |
| Build.InvalidThemes | src/cli/build.ts:18 | the requested IDs that are not eligible; see InvalidThemesExactly and InvalidThemesAppend |
| Build.NotOptimizable | src/cli/build.ts:20-29 | the BalerError text naming the counts and the invalid IDs; see OneInvalidTheme |
| Build.InvalidThemesExactly | src/cli/build.ts:18 | the invalid IDs are exactly the requested ones that are not eligible |
| Build.InvalidThemesAppend | src/cli/build.ts:18 | invalid IDs keep request order |
| Build.SelectedAreEligible | src/cli/build.ts:17-35 | whatever is selected is eligible |
| Build.SelectedThemesPrepare | src/cli/build.ts:15-36 | the selected themes pass optimizeThemes' guards |
| Build.OneInvalidTheme | src/cli/build.ts:17-29 | one ineligible ID is named in the error |

## Left out

- Running RequireJS in a `vm` sandbox and merging the configs it is given is
  not modelled. A run is given as its `require.config` calls and the merged
  config. The `deps` capture hook is modelled.
- The RequireJS resolver (createRequireResolver.ts) is an input function. So
  are acorn, acorn-loose, esquery's tree walk over node kinds other than
  calls, php-parser and htmlparser2's tokeniser.
- The tracer's termination argument needs a ghost set holding every module
  the resolver can name. Resolvers that name unboundedly many modules are not
  covered.
- `Tracer.DependencyTracer.VisitAll`: the loop and the `Run` function carry
  that ghost set. A graph beyond it is outside the model.
- The file system is a map from path to contents, and directory listings are
  inputs:
  - reads, `readdir`, fast-glob, mkdir and writes are not modelled;
  - the outcome of each write is a predicate `wrote` on paths;
  - the tracer reads a file when it dequeues it, not ahead of time, which is
    the same result because the files do not change.
- Asynchrony is not modelled. This covers `Promise.all` and the order in which
  errors surface when several themes run concurrently. The first failing theme
  in request order gives the error.
- The XML parse of theme.xml and its read error are not modelled. The parent of
  each theme is an input function.
- getPHTMLFilesEligibleForUseWithTheme and the PHTML half of index.ts are not
  modelled. They build glob patterns for fast-glob, which is not part of this
  model.
- Minification (createMinifier.ts, minifyWorker.ts) is not modelled.
  createBundleFromDeps.ts is not part of this model. The sizes in bytes of the
  bundle and of the config are not modelled either.
- jsesc escaping is not modelled. The text wrapper is given the escaped text.
- MagicString source maps are not modelled. Its edits are concatenation. The
  one MagicString error the core can meet is modelled: overwriting the empty
  range of an empty text module.
- The two template wrappers are modelled as the code runs them: the
  template is filled in, split at 'SPLIT', and pieces 0 and 1 are kept. Only
  the layout lemmas below are restricted to inputs without the marker.
- ShimmedKeepsSource: the exact head and tail layout is stated
  only when the ID, the deps' JSON text and the exports name hold no
  "SPLIT". Otherwise the split cuts the head or the tail short.
  `ShimmedPieces` still holds for every input, and `ShimmedExportsCutShort`
  shows the cut for an exports name.
- TextKeepsSource: the exact layout is stated only for an ID
  without "SPLIT". `TextPieces` still holds for every ID.
- ShimWithoutDepsOrExports: the whole module text is stated only
  for an ID without "SPLIT".
- `path.join` is modelled without normalisation of '..', '.' or repeated
  slashes. Every path the core builds joins plain segments.
- `Themes.GetThemeHierarchy`: a cycle of parent links makes the source recurse
  until the stack overflows. The model stops after one more level than there
  are themes and returns that error. `Themes.AcyclicHierarchyEnds` proves
  that the bound makes no difference when the ancestors never repeat.
- Paths.Join: an `undefined` segment is modelled only where the core can pass
  one (getStaticDirForTheme), as node's TypeError.
- Object keys that look like integers would come first in JavaScript key
  order. The model keeps plain insertion order. Magento module IDs and theme
  IDs are not integer-like.
- OptimizeThemes.GetThemeByID: `themes[themeID]` also finds members of
  Object.prototype. The map lookup does not. So for an ID such as
  "constructor", the model reports the not-found error, where the source goes
  on to throw the "Cannot optimize theme \"undefined\"" error. No Magento
  theme ID has that form.
- RequireConfig.GetShimsForModule: for a module ID that names an
  Object.prototype member, such as "constructor", the source returns that
  member as a shim. The model returns None.
- Bundle.DirectDeps: for a dep that is not a key of the graph but names an
  Object.prototype member, such as "toString", spreading `graph[dep]` throws
  a TypeError in the source. The model gives no dependencies. RequireJS
  module IDs do not take these names.
- The unit tests' literal examples that would need long literal strings are
  stated as general lemmas over any IDs, for the same shapes.
- Tracing output (`trace`), debug events, the CLI wrapper (cli.ts,
  initializeCLI.ts) and the log listener are not modelled. None of them
  affects the results.
