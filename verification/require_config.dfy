/** RequireJS configuration helpers (requireConfig.ts): loading the config
    with its error paths, the `deps` capture hook, shim normalisation and the
    `bundles` config text. Running RequireJS itself in a `vm` context is not
    part of this model: a run is given as the `require.config` calls the
    script made plus the configuration RequireJS merged from them. */
module RequireConfig {
  import opened Wrappers
  import opened Strings
  import Paths
  import opened Mixins

  // ---------------------------------------------------------------------
  // Shims
  // ---------------------------------------------------------------------

  /** getShimsForModule: no shim gives None, a bare list becomes
      `{ deps: list }`, and a shim object is returned unchanged. */
  function GetShimsForModule(moduleID: string, requireConfig: MagentoRequireConfig): (r: Option<Shim>)
    ensures r.None? <==> moduleID !in requireConfig.shim
    ensures r.Some? ==> match requireConfig.shim[moduleID]
                        case ShimDeps(list) => r.value == Shim(Some(list), None)
                        case ShimObject(shim) => r.value == shim
  {
    if moduleID !in requireConfig.shim then None
    else
      match requireConfig.shim[moduleID]
      case ShimDeps(list) => Some(Shim(Some(list), None))
      case ShimObject(shim) => Some(shim)
  }

  /** Normalising is idempotent: writing the normalised shim back as an
      object and looking it up again gives the same shim. */
  lemma GetShimsForModuleIdempotent(moduleID: string, requireConfig: MagentoRequireConfig)
    requires moduleID in requireConfig.shim
    ensures var normal := GetShimsForModule(moduleID, requireConfig).value;
            var rewritten := requireConfig.(shim := requireConfig.shim[moduleID := ShimObject(normal)]);
            GetShimsForModule(moduleID, rewritten) == Some(normal)
  {
  }

  // ---------------------------------------------------------------------
  // JSON text of the bundle list
  // ---------------------------------------------------------------------

  function HexDigit(d: nat): char
    requires d < 16
  {
    "0123456789abcdef"[d]
  }

  /** How `JSON.stringify` writes one character inside a string literal. */
  function EscapeChar(c: char): (e: string)
    ensures |e| >= 1
    ensures c != '"' && c != '\\' && c >= ' ' ==> e == [c]
  {
    if c == '"' then "\\\""
    else if c == '\\' then "\\\\"
    else if c == '\U{0008}' then "\\b"
    else if c == '\t' then "\\t"
    else if c == '\n' then "\\n"
    else if c == '\U{000C}' then "\\f"
    else if c == '\r' then "\\r"
    else if c < ' ' then
      var code := c as int;
      "\\u00" + [HexDigit(code / 16), HexDigit(code % 16)]
    else [c]
  }

  function EscapeJson(s: string): string
  {
    if |s| == 0 then "" else EscapeJson(s[..|s| - 1]) + EscapeChar(s[|s| - 1])
  }

  /** `JSON.stringify(s)` for a string. */
  function JsonQuote(s: string): string
  {
    "\"" + EscapeJson(s) + "\""
  }

  /** A string without quotes, backslashes or control characters is written
      as it is, between double quotes. */
  predicate PlainJsonText(s: string)
  {
    forall i :: 0 <= i < |s| ==> s[i] != '"' && s[i] != '\\' && s[i] >= ' '
  }

  lemma {:induction false} PlainTextQuotedAsIs(s: string)
    requires PlainJsonText(s)
    ensures JsonQuote(s) == "\"" + s + "\""
  {
    PlainTextEscapedAsIs(s);
  }

  lemma {:induction false} PlainTextEscapedAsIs(s: string)
    requires PlainJsonText(s)
    ensures EscapeJson(s) == s
  {
    if |s| > 0 {
      PlainTextEscapedAsIs(s[..|s| - 1]);
      assert s == s[..|s| - 1] + [s[|s| - 1]];
    }
  }

  /** `JSON.stringify(items, null, 2)` for an array of strings: "[]" when
      empty, otherwise one item per line indented by two spaces. */
  function JsonStringArray(items: seq<string>): (text: string)
    ensures |text| >= 2 && text[0] == '[' && text[|text| - 1] == ']'
  {
    if |items| == 0 then "[]"
    else "[\n  " + Join(QuoteAll(items), ",\n  ") + "\n]"
  }

  function QuoteAll(items: seq<string>): (quoted: seq<string>)
    ensures |quoted| == |items|
    ensures forall i :: 0 <= i < |items| ==> quoted[i] == JsonQuote(items[i])
  {
    if |items| == 0 then [] else [JsonQuote(items[0])] + QuoteAll(items[1..])
  }

  /** The text before the bundle ID. */
  const BUNDLE_CONFIG_HEAD :=
    "(function() {\n"
    + "    // Injected by @magento/baler. This config\n"
    + "    // tells RequireJS which modules are in the\n"
    + "    // bundle, to prevent require from trying to\n"
    + "    // load bundled modules from the network\n"
    + "    require.config({\n"
    + "        bundles: {\n"
    + "            'balerbundles/"

  /** The text between the bundle list and the original config. */
  const BUNDLE_CONFIG_TAIL :=
    "\n"
    + "        }\n"
    + "    });\n"
    + "})();\n"

  /** generateBundleRequireConfig */
  function GenerateBundleRequireConfig(rawConfig: string, bundleID: string, bundledDeps: seq<string>)
    : (text: string)
    ensures BUNDLE_CONFIG_HEAD + bundleID + "': " <= text
    ensures EndsWith(text, BUNDLE_CONFIG_TAIL + rawConfig)
    ensures var h := |BUNDLE_CONFIG_HEAD + bundleID + "': "|;
            h + |BUNDLE_CONFIG_TAIL + rawConfig| <= |text|
            && text[h..|text| - |BUNDLE_CONFIG_TAIL + rawConfig|] == JsonStringArray(bundledDeps)
  {
    var head := BUNDLE_CONFIG_HEAD + bundleID + "': ";
    var tail := BUNDLE_CONFIG_TAIL + rawConfig;
    var list := JsonStringArray(bundledDeps);
    Framed(head, list, tail);
    head + list + tail
  }

  /** The middle of a text put together from three parts. */
  lemma Framed(a: string, b: string, c: string)
    ensures a <= a + b + c
    ensures EndsWith(a + b + c, c)
    ensures (a + b + c)[|a|..|a + b + c| - |c|] == b
  {
    var s := a + b + c;
    assert s[..|a|] == a;
    assert s[|a + b|..] == c;
    assert s[|a|..|a + b|] == b;
  }

  /** The original config is kept whole as a suffix: cutting the generated
      text after the header gives it back. */
  lemma RawConfigRecoverable(rawConfig: string, bundleID: string, bundledDeps: seq<string>)
    ensures var text := GenerateBundleRequireConfig(rawConfig, bundleID, bundledDeps);
            var headerLength := |BUNDLE_CONFIG_HEAD + bundleID + "': " + JsonStringArray(bundledDeps)
                                 + BUNDLE_CONFIG_TAIL|;
            text[headerLength..] == rawConfig
  {
    LastPart(BUNDLE_CONFIG_HEAD + bundleID + "': ", JsonStringArray(bundledDeps), BUNDLE_CONFIG_TAIL, rawConfig);
  }

  /** What follows the first three parts of a text is its last part. */
  lemma LastPart(a: string, b: string, c: string, d: string)
    ensures (a + b + (c + d))[|a + b + c|..] == d
  {
    assert a + b + (c + d) == (a + b + c) + d;
  }

  /** A non-empty list of plain module IDs is written one per line, each
      between double quotes and followed by a comma except the last. */
  lemma PlainListLayout(items: seq<string>)
    requires |items| > 0 && forall i :: 0 <= i < |items| ==> PlainJsonText(items[i])
    ensures JsonStringArray(items) == "[\n  " + "\"" + Join(items, "\"" + ",\n  " + "\"") + "\"" + "\n]"
  {
    QuotedJoin(items, ",\n  ");
    Regroup("[\n  ", "\"", Join(items, "\"" + ",\n  " + "\""), "\n]");
  }

  lemma Regroup(a: string, q: string, j: string, b: string)
    ensures a + (q + j + q) + b == a + q + j + q + b
  {
  }

  /** Joining the quoted plain items is quoting the items joined with the
      separator between quotes. */
  lemma {:induction false} QuotedJoin(items: seq<string>, sep: string)
    requires |items| > 0 && forall i :: 0 <= i < |items| ==> PlainJsonText(items[i])
    ensures Join(QuoteAll(items), sep) == "\"" + Join(items, "\"" + sep + "\"") + "\""
    decreases |items|
  {
    var q := "\"";
    PlainTextQuotedAsIs(items[0]);
    if |items| > 1 {
      var rest := items[1..];
      assert QuoteAll(items)[1..] == QuoteAll(rest);
      QuotedJoin(rest, sep);
      var x := items[0];
      var j := Join(rest, q + sep + q);
      assert Join(QuoteAll(items), sep) == (q + x + q) + sep + (q + j + q);
      assert Join(items, q + sep + q) == x + (q + sep + q) + j;
      assert (q + x + q) + sep + (q + j + q) == q + (x + (q + sep + q) + j) + q;
    }
  }

  // ---------------------------------------------------------------------
  // The deps hook and loading
  // ---------------------------------------------------------------------

  /** The argument of one `require.config(conf)` call; only `deps` matters
      here. */
  datatype ConfigCall = ConfigCall(deps: Option<seq<string>>)

  /** A run of the config script: its `require.config` calls in order, and
      the configuration RequireJS merged from them. */
  datatype ConfigRun = ConfigRun(calls: seq<ConfigCall>, merged: MagentoRequireConfig)

  function DepsOf(conf: ConfigCall): seq<string>
  {
    if conf.deps.Some? then conf.deps.value else []
  }

  /** The deps of every call that has them, in call order. */
  function CapturedDeps(calls: seq<ConfigCall>): seq<string>
  {
    if |calls| == 0 then [] else CapturedDeps(calls[..|calls| - 1]) + DepsOf(calls[|calls| - 1])
  }

  /** Capturing splits over the calls: later calls only append. */
  lemma {:induction false} CapturedDepsAppend(a: seq<ConfigCall>, b: seq<ConfigCall>)
    ensures CapturedDeps(a + b) == CapturedDeps(a) + CapturedDeps(b)
    decreases |b|
  {
    if |b| == 0 {
      assert a + b == a;
    } else {
      assert (a + b)[..|a + b| - 1] == a + b[..|b| - 1];
      CapturedDepsAppend(a, b[..|b| - 1]);
    }
  }

  /** The replacement `require.config` installed in the sandbox: it records
      `deps` before handing the call on. */
  class DepsCapture {
    var entryDeps: seq<string>

    constructor()
      ensures entryDeps == []
    {
      entryDeps := [];
    }

    method Config(conf: ConfigCall)
      modifies this
      ensures entryDeps == old(entryDeps) + DepsOf(conf)
    {
      if conf.deps.Some? {
        entryDeps := entryDeps + conf.deps.value;
      }
    }
  }

  /** evaluateRawConfig, given the run of the script: the merged config with
      `deps` replaced by everything the hook captured. */
  method EvaluateRawConfig(run: ConfigRun) returns (config: MagentoRequireConfig)
    ensures config == run.merged.(deps := CapturedDeps(run.calls))
  {
    var capture := new DepsCapture();
    var i := 0;
    while i < |run.calls|
      invariant 0 <= i <= |run.calls|
      invariant capture.entryDeps == CapturedDeps(run.calls[..i])
    {
      assert run.calls[..i + 1][..i] == run.calls[..i];
      capture.Config(run.calls[i]);
      i := i + 1;
    }
    assert run.calls[..i] == run.calls;
    config := run.merged.(deps := capture.entryDeps);
  }

  datatype LoadedConfig = LoadedConfig(rawRequireConfig: string, requireConfig: MagentoRequireConfig)

  function ReadFailed(path: string): string
  {
    "Failed reading RequireJS config at path \"" + path + "\""
  }

  function EvaluationFailed(path: string, err: string): string
  {
    "Failed evaluating RequireJS config at path \"" + path + "\".\nError: " + err
  }

  /** getRequireConfigFromDir. `files` maps readable paths to their text;
      `evaluate` runs a config script, failing with the thrown error's text. */
  method GetRequireConfigFromDir(files: map<string, string>, evaluate: string -> Result<ConfigRun>, path: string)
    returns (r: Result<LoadedConfig>)
    ensures var filepath := Paths.Join(path, "requirejs-config.js");
            var raw := if filepath in files then files[filepath] else "";
            && (raw == "" ==> r == Err(ReadFailed(path)))
            && (raw != "" && evaluate(raw).Err? ==> r == Err(EvaluationFailed(path, evaluate(raw).error)))
            && (raw != "" && evaluate(raw).Ok? ==>
                  r == Ok(LoadedConfig(raw, evaluate(raw).value.merged.(deps := CapturedDeps(evaluate(raw).value.calls)))))
  {
    var filepath := Paths.Join(path, "requirejs-config.js");
    var rawRequireConfig := if filepath in files then files[filepath] else "";
    if rawRequireConfig == "" {
      return Err(ReadFailed(path));
    }
    var run := evaluate(rawRequireConfig);
    if run.Err? {
      return Err(EvaluationFailed(path, run.error));
    }
    var requireConfig := EvaluateRawConfig(run.value);
    r := Ok(LoadedConfig(rawRequireConfig, requireConfig));
  }
}
