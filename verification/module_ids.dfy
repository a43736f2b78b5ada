/** Module identifiers: the `plugin!id` split (parseModuleID.ts), the two
    id-to-path rules (moduleIDToPath.ts, resolvedModuleIDToPath.ts), and the
    identifiers that are never bundled (requireBuiltIns.ts, excludedFiles.ts,
    depIsIgnored.ts). */
module ModuleIds {
  import opened Strings
  import Paths

  /** `{ id, plugin }`; `plugin` is "" for a request without a plugin. */
  datatype ModuleRequest = ModuleRequest(id: string, plugin: string)

  /** The dependencies supplied by the RequireJS runtime itself. */
  const REQUIRE_BUILT_INS: seq<string> := ["exports", "require", "module"]

  /** Resources that must never be bundled. */
  const EXCLUDED_FILES: seq<string> := ["text!js-translation.json"]

  /** The loader plugins the tool knows how to trace. */
  predicate IsKnownPlugin(name: string)
  {
    name == "text" || name == "domReady"
  }

  /** Splits a request at '!'. Without '!' the request is the id. With one,
      the text before it names the plugin: for `text` and `domReady` the text
      up to the next '!' is the id (further segments are ignored); any other
      plugin drops the whole request to { id: "", plugin: "" }. */
  function ParseModuleID(request: string): (r: ModuleRequest)
    ensures '!' !in request ==> r == ModuleRequest(request, "")
    ensures '!' in request ==> IsKnownPlugin(r.plugin) || r == ModuleRequest("", "")
    ensures '!' !in r.id
  {
    var parts := Split(request, '!');
    SplitPiecesFree(request, '!');
    JoinSplit(request, '!');
    if '!' !in request then
      SplitWithoutSeparator(request, '!');
      ModuleRequest(parts[0], "")
    else if |parts| == 1 then
      // a single piece would be the whole request, which holds a '!'
      assert false; ModuleRequest("", "")
    else
      var plugin := parts[0];
      var id := parts[1];
      if plugin == "text" then ModuleRequest(id, "text")
      else if plugin == "domReady" then ModuleRequest(id, "domReady")
      else ModuleRequest("", "")
  }

  /** A known plugin, one '!', then an id: the id and the plugin come back
      separately, and joining them with '!' restores the request. */
  lemma ParseModuleIDRoundTrip(plugin: string, id: string)
    requires IsKnownPlugin(plugin) && '!' !in id
    ensures ParseModuleID(plugin + "!" + id) == ModuleRequest(id, plugin)
    ensures ParseModuleID(plugin + "!" + id).plugin + "!" + ParseModuleID(plugin + "!" + id).id
            == plugin + "!" + id
  {
    SplitAtFirst(plugin, '!', id);
    SplitWithoutSeparator(id, '!');
    assert plugin + ['!'] + id == plugin + "!" + id;
  }

  /** Segments after a second '!' are dropped: only the first two matter. */
  lemma ParseModuleIDDropsExtraSegments(plugin: string, id: string, extra: string)
    requires IsKnownPlugin(plugin) && '!' !in id
    ensures ParseModuleID(plugin + "!" + id + "!" + extra) == ModuleRequest(id, plugin)
  {
    var request := plugin + "!" + id + "!" + extra;
    assert request == plugin + ['!'] + (id + ['!'] + extra);
    SplitAtFirst(plugin, '!', id + ['!'] + extra);
    SplitAtFirst(id, '!', extra);
  }

  /** An unknown plugin name makes the request vanish. */
  lemma ParseModuleIDUnknownPlugin(plugin: string, rest: string)
    requires !IsKnownPlugin(plugin) && '!' !in plugin
    ensures ParseModuleID(plugin + "!" + rest) == ModuleRequest("", "")
  {
    assert plugin + "!" + rest == plugin + ['!'] + rest;
    SplitAtFirst(plugin, '!', rest);
  }

  /** The documented examples of a plain and a `text!` request. */
  lemma ParseModuleIDExamples()
    ensures ParseModuleID("foo") == ModuleRequest("foo", "")
    ensures ParseModuleID("text!foo") == ModuleRequest("foo", "text")
  {
    assert "foo"[0] != '!' && "foo"[1] != '!' && "foo"[2] != '!';
    assert '!' !in "foo";
    ParseModuleIDRoundTrip("text", "foo");
    assert "text" + "!" + "foo" == "text!foo";
  }

  /** A known plugin with nothing after its '!' (`domReady!`) gives an empty
      id. */
  lemma ParseModuleIDEmptyId(plugin: string)
    requires IsKnownPlugin(plugin)
    ensures ParseModuleID(plugin + "!") == ModuleRequest("", plugin)
  {
    ParseModuleIDRoundTrip(plugin, "");
    assert plugin + "!" + "" == plugin + "!";
  }

  /** moduleIDToPath: the id with ".html" for the text plugin and ".js" for
      every other plugin, including none. */
  function ModuleIDToPath(request: ModuleRequest): (path: string)
    ensures request.id <= path
    ensures path[|request.id|..] == ".html" || path[|request.id|..] == ".js"
    ensures path[|request.id|..] == ".html" <==> request.plugin == "text"
  {
    request.id + (if request.plugin == "text" then ".html" else ".js")
  }

  /** The path depends on the plugin only through whether it is `text`. */
  lemma ModuleIDToPathOnlyTextMatters(id: string, p: string, q: string)
    requires (p == "text") == (q == "text")
    ensures ModuleIDToPath(ModuleRequest(id, p)) == ModuleIDToPath(ModuleRequest(id, q))
  {
  }

  /** resolvedModuleIDToPath: `join(baseDir, request)`, with ".js" appended
      unless the request already has the extension ".js" or ".html". */
  function ResolvedModuleIDToPath(request: string, baseDir: string): (path: string)
    ensures Paths.Join(baseDir, request) <= path
    ensures var ext := Paths.Extname(request);
            (ext == ".js" || ext == ".html") <==> path == Paths.Join(baseDir, request)
  {
    var ext := Paths.Extname(request);
    var fullPath := Paths.Join(baseDir, request);
    fullPath + (if ext == ".html" || ext == ".js" then "" else ".js")
  }

  /** A request whose last segment is not empty always yields a path ending in
      ".js" or ".html". */
  lemma ResolvedPathHasScriptOrHtmlExtension(request: string, baseDir: string)
    requires |request| > 0 && request[|request| - 1] != '/'
    ensures var path := ResolvedModuleIDToPath(request, baseDir);
            EndsWith(path, ".js") || EndsWith(path, ".html")
  {
    var ext := Paths.Extname(request);
    var full := Paths.Join(baseDir, request);
    if ext == ".js" || ext == ".html" {
      Paths.ExtnameIsSuffix(request);
      EndsWithTransitive(full, request, ext);
    } else {
      var path := full + ".js";
      assert path[|path| - 3..] == ".js";
    }
  }

  /** Spelling out ".js" changes nothing: "foo" and "foo.js" name one file. */
  lemma ResolvedPathJsSuffixOptional(request: string, baseDir: string)
    requires |request| > 0 && request[|request| - 1] != '/'
    requires Paths.Extname(request) != ".js" && Paths.Extname(request) != ".html"
    ensures ResolvedModuleIDToPath(request, baseDir) == ResolvedModuleIDToPath(request + ".js", baseDir)
  {
    Paths.ExtnameOfAppendedJs(request);
    assert ResolvedModuleIDToPath(request, baseDir) == Paths.Join(baseDir, request) + ".js";
    assert ResolvedModuleIDToPath(request + ".js", baseDir) == Paths.Join(baseDir, request + ".js");
    Paths.JoinAppend(baseDir, request, ".js");
  }

  /** The examples of the unit tests: an extension-less request gains ".js". */
  lemma ResolvedModuleIDToPathAddsJs()
    ensures ResolvedModuleIDToPath("foo", "base") == "base/foo.js"
  {
    assert Paths.StripTrailingSlashes("foo") == "foo";
    assert Paths.LastIndexOf("foo", '/') == -1;
    assert Paths.LastSegment("foo") == "foo";
    assert Paths.LastIndexOf("foo", '.') == -1;
    assert Paths.Extname("foo") == "";
    assert "base" + "/" + "foo" + ".js" == "base/foo.js";
  }

  /** ... and one that already ends in ".js" or ".html" is only joined to
      the base directory. */
  lemma ResolvedModuleIDToPathKeepsExtension(name: string, ext: string, baseDir: string)
    requires |name| > 0 && name[|name| - 1] != '/'
    requires ext == ".js" || ext == ".html"
    ensures ResolvedModuleIDToPath(name + ext, baseDir) == Paths.Join(baseDir, name + ext)
  {
    var word := ext[1..];
    assert ext == "." + word;
    assert '.' !in word && '/' !in word by {
      if ext == ".js" {
        assert word == "js";
      } else {
        assert word == "html";
      }
    }
    Paths.ExtnameOfAppended(name, word);
  }

  /** `REQUIRE_BUILT_INS.includes(dep)` */
  predicate IsBuiltIn(dep: string)
  {
    dep in REQUIRE_BUILT_INS
  }

  /** depIsIgnored: a runtime built-in or an excluded file. */
  function DepIsIgnored(dep: string): (ignored: bool)
    ensures ignored <==> dep in {"exports", "require", "module", "text!js-translation.json"}
  {
    dep in REQUIRE_BUILT_INS || dep in EXCLUDED_FILES
  }

  /** Whatever bundling skips as a built-in is ignored as well. */
  lemma BuiltInsAreIgnored(dep: string)
    requires IsBuiltIn(dep)
    ensures DepIsIgnored(dep)
  {
  }
}
