/** The guards and the write plan of optimizeThemes.ts: which requested
    themes may be optimised, where the entry points come from, and which file
    is written to which locale directory in which order. */
module OptimizeThemes {
  import opened Wrappers
  import opened Records
  import Paths
  import Flatten
  import opened Themes
  import opened Mixins
  import opened MagentoFs

  /** The directory under each locale root that holds the bundles. */
  const BALER_META_DIR := "balerbundles"

  // --------------------------------------------------------------- guards

  function ThemeNotFound(themeID: string): string
  {
    "Attempted to optimize \"" + themeID + "\", but it was not found in the store."
  }

  /** `getThemeByID(themeID, themes)`: the theme stored under the ID. */
  function GetThemeByID(themeID: string, themes: Record<Theme>): (r: Result<Theme>)
    ensures r.Ok? <==> themeID in themes.values
    ensures r.Ok? ==> r.value == themes.values[themeID]
    ensures r.Err? ==> r.error == ThemeNotFound(themeID)
  {
    if themeID in themes.values then Ok(themes.values[themeID]) else Err(ThemeNotFound(themeID))
  }

  function NotFrontend(themeID: string): string
  {
    "Cannot optimize theme \"" + themeID + "\" because only \"frontend\" themes are supported by baler"
  }

  const BLANK_NOT_SUPPORTED := "Optimization of \"Magento/blank\" is not supported"

  /** `throwOnDisallowedTheme(theme)`: the area is checked before the ID. */
  function ThrowOnDisallowedTheme(theme: Theme): (r: Outcome)
    ensures r.Pass? <==> theme.area == FRONTEND && theme.themeID != BLANK_THEME
    ensures theme.area != FRONTEND ==> r == Fail(NotFrontend(theme.themeID))
    ensures theme.area == FRONTEND && theme.themeID == BLANK_THEME ==> r == Fail(BLANK_NOT_SUPPORTED)
  {
    if theme.area != FRONTEND then Fail(NotFrontend(theme.themeID))
    else if theme.themeID == BLANK_THEME then Fail(BLANK_NOT_SUPPORTED)
    else Pass
  }

  function NoEntryPoints(themeID: string): string
  {
    "Could not find any entry points (\"deps\") config in \"requirejs-config.js\" for theme \"" + themeID + "\""
  }

  /** `getEntryPointsFromConfig(requireConfig, themeID)`: the captured `deps`
      unchanged when there are any. */
  function GetEntryPointsFromConfig(requireConfig: MagentoRequireConfig, themeID: string): (r: Result<seq<string>>)
    ensures r.Ok? <==> |requireConfig.deps| > 0
    ensures r.Ok? ==> r.value == requireConfig.deps
    ensures r.Err? ==> r.error == NoEntryPoints(themeID)
  {
    if |requireConfig.deps| > 0 then Ok(requireConfig.deps) else Err(NoEntryPoints(themeID))
  }

  /** The synchronous part of `optimizeThemes`: each requested ID is looked
      up and checked, in order, and the first failure is thrown. */
  function PrepareThemes(themeIDs: seq<string>, themes: Record<Theme>): Result<seq<Theme>>
  {
    if |themeIDs| == 0 then Ok([])
    else
      match PrepareThemes(themeIDs[..|themeIDs| - 1], themes)
      case Err(e) => Err(e)
      case Ok(ts) =>
        match GetThemeByID(themeIDs[|themeIDs| - 1], themes)
        case Err(e) => Err(e)
        case Ok(t) =>
          match ThrowOnDisallowedTheme(t)
          case Fail(e) => Err(e)
          case Pass => Ok(ts + [t])
  }

  /** A requested ID passes when it is in the store and its theme is a
      frontend theme other than the blank theme. */
  predicate Allowed(themeID: string, themes: Record<Theme>)
  {
    themeID in themes.values && ThrowOnDisallowedTheme(themes.values[themeID]).Pass?
  }

  /** The requested IDs pass exactly when each of them does, and then the
      themes come back in request order; otherwise the error is that of the
      first ID that fails. */
  lemma PrepareThemesExactly(themeIDs: seq<string>, themes: Record<Theme>)
    ensures PrepareThemes(themeIDs, themes).Ok? <==> forall i :: 0 <= i < |themeIDs| ==> Allowed(themeIDs[i], themes)
    ensures PrepareThemes(themeIDs, themes).Ok? ==>
      var ts := PrepareThemes(themeIDs, themes).value;
      |ts| == |themeIDs| && forall i :: 0 <= i < |themeIDs| ==> ts[i] == themes.values[themeIDs[i]]
    ensures PrepareThemes(themeIDs, themes).Err? ==>
      exists i :: 0 <= i < |themeIDs| && !Allowed(themeIDs[i], themes)
        && (forall j :: 0 <= j < i ==> Allowed(themeIDs[j], themes))
        && PrepareThemes(themeIDs, themes).error == FirstFailure(themeIDs[i], themes)
  {
    PrepareThemesOk(themeIDs, themes);
    PrepareThemesErr(themeIDs, themes);
  }

  /** The error a requested ID that does not pass throws. */
  function FirstFailure(themeID: string, themes: Record<Theme>): string
    requires !Allowed(themeID, themes)
  {
    if themeID !in themes.values then ThemeNotFound(themeID)
    else ThrowOnDisallowedTheme(themes.values[themeID]).error
  }

  lemma {:induction false} PrepareThemesOk(themeIDs: seq<string>, themes: Record<Theme>)
    ensures PrepareThemes(themeIDs, themes).Ok? <==> forall i :: 0 <= i < |themeIDs| ==> Allowed(themeIDs[i], themes)
    ensures PrepareThemes(themeIDs, themes).Ok? ==>
      var ts := PrepareThemes(themeIDs, themes).value;
      |ts| == |themeIDs| && forall i :: 0 <= i < |themeIDs| ==> ts[i] == themes.values[themeIDs[i]]
  {
    if |themeIDs| > 0 {
      var init := themeIDs[..|themeIDs| - 1];
      PrepareThemesOk(init, themes);
      assert forall i :: 0 <= i < |init| ==> init[i] == themeIDs[i];
    }
  }

  lemma {:induction false} PrepareThemesErr(themeIDs: seq<string>, themes: Record<Theme>)
    ensures PrepareThemes(themeIDs, themes).Err? ==>
      exists i :: 0 <= i < |themeIDs| && !Allowed(themeIDs[i], themes)
        && (forall j :: 0 <= j < i ==> Allowed(themeIDs[j], themes))
        && PrepareThemes(themeIDs, themes).error == FirstFailure(themeIDs[i], themes)
  {
    if |themeIDs| > 0 {
      var init := themeIDs[..|themeIDs| - 1];
      PrepareThemesErr(init, themes);
      assert forall i :: 0 <= i < |init| ==> init[i] == themeIDs[i];
      if PrepareThemes(init, themes).Err? {
        var i :| 0 <= i < |init| && !Allowed(init[i], themes)
          && (forall j :: 0 <= j < i ==> Allowed(init[j], themes))
          && PrepareThemes(init, themes).error == FirstFailure(init[i], themes);
        assert themeIDs[i] == init[i];
      } else {
        PrepareThemesOk(init, themes);
      }
    }
  }

  /** When the record stores every theme under its own ID, every eligible
      theme is found and passes the checks. */
  lemma EligibleThemesAllowed(store: StoreData, themeID: string)
    requires store.components.themes.Valid() && KeyedByThemeID(store.components.themes)
    requires themeID in GetEligibleThemes(store)
    ensures Allowed(themeID, store.components.themes)
    ensures GetThemeByID(themeID, store.components.themes).Ok?
  {
    var themes := store.components.themes;
    EligibleOfExactly(themes.Values(), store.deployedThemes);
    var t :| t in themes.Values() && IsEligible(t, store.deployedThemes) && t.themeID == themeID;
    var i :| 0 <= i < |themes.keys| && themes.Values()[i] == t;
    assert themes.values[themes.keys[i]] == t;
  }

  /** Hence optimising every eligible theme passes the guards. */
  lemma EligibleThemesPrepare(store: StoreData)
    requires store.components.themes.Valid() && KeyedByThemeID(store.components.themes)
    ensures PrepareThemes(GetEligibleThemes(store), store.components.themes).Ok?
  {
    var ids := GetEligibleThemes(store);
    forall i | 0 <= i < |ids| ensures Allowed(ids[i], store.components.themes) {
      EligibleThemesAllowed(store, ids[i]);
    }
    PrepareThemesExactly(ids, store.components.themes);
  }

  // ----------------------------------------------------------- write plan

  /** A file to write under each locale root. */
  datatype ThemeFile = ThemeFile(pathFromLocaleRoot: string, source: string)

  /** The four files of the core bundle: the bundle and its source map under
      the meta directory, the new RequireJS config and its map at the root. */
  function CoreBundleFiles(bundleFilename: string, bundle: string, bundleMap: string,
                           config: string, configMap: string): (files: seq<ThemeFile>)
    ensures |files| == 4
    ensures files[0].source == bundle && files[1].source == bundleMap
    ensures files[2].source == config && files[3].source == configMap
  {
    [ThemeFile(Paths.Join(BALER_META_DIR, bundleFilename), bundle),
     ThemeFile(Paths.Join(BALER_META_DIR, bundleFilename + ".map"), bundleMap),
     ThemeFile("requirejs-bundle-config.js", config),
     ThemeFile("requirejs-bundle-config.js.map", configMap)]
  }

  /** One write: the file, the locale and the absolute path. */
  datatype Attempt = Attempt(file: ThemeFile, locale: string, path: string)

  /** `join(magentoRoot, staticDir, locale, file.pathFromLocaleRoot)` */
  function WritePath(magentoRoot: string, staticDir: string, locale: string, file: ThemeFile): string
  {
    Paths.Join(Paths.Join(Paths.Join(magentoRoot, staticDir), locale), file.pathFromLocaleRoot)
  }

  /** The writes for one file, one per locale. */
  function FileAttempts(magentoRoot: string, staticDir: string, file: ThemeFile, locales: seq<string>): seq<Attempt>
  {
    seq(|locales|, j requires 0 <= j < |locales| =>
      Attempt(file, locales[j], WritePath(magentoRoot, staticDir, locales[j], file)))
  }

  /** The flattened `files.map(file => locales.map(…))` of
      writeFilesToAllLocales; the static directory is computed first and can
      throw. */
  function WritePlan(magentoRoot: string, theme: Theme, files: seq<ThemeFile>, locales: seq<string>): Result<seq<Attempt>>
  {
    match GetStaticDirForTheme(theme)
    case Err(e) => Err(e)
    case Ok(staticDir) =>
      Ok(Flatten.Flatten(seq(|files|, i requires 0 <= i < |files| => FileAttempts(magentoRoot, staticDir, files[i], locales))))
  }

  /** The place of the `j`-th locale of the `i`-th file when each file has
      `w` locales. */
  function FileMajor(i: nat, w: nat, j: nat): nat
  {
    i * w + j
  }

  /** One attempt per (file, locale) pair, in file-major order, each writing
      under the locale's directory of the theme. */
  lemma WritePlanOrder(magentoRoot: string, theme: Theme, files: seq<ThemeFile>, locales: seq<string>, i: nat, j: nat)
    requires '/' in theme.themeID
    requires i < |files| && j < |locales|
    ensures WritePlan(magentoRoot, theme, files, locales).Ok?
    ensures var plan := WritePlan(magentoRoot, theme, files, locales).value;
      var k := FileMajor(i, |locales|, j);
      && |plan| == |files| * |locales|
      && k < |plan|
      && plan[k].file == files[i]
      && plan[k].locale == locales[j]
      && Paths.Join(Paths.Join(magentoRoot, GetStaticDirForTheme(theme).value), locales[j]) <= plan[k].path
  {
    var staticDir := GetStaticDirForTheme(theme).value;
    var xss := seq(|files|, k requires 0 <= k < |files| => FileAttempts(magentoRoot, staticDir, files[k], locales));
    Flatten.FlattenUniformIndex(xss, |locales|, i, j);
    var a := xss[i][j];
    assert a == Attempt(files[i], locales[j], WritePath(magentoRoot, staticDir, locales[j], files[i]));
  }

  /** The outcome of one write; `wrote` says which paths could be written
      (the write itself is not modelled). */
  datatype WriteResult = WriteResult(success: bool, file: ThemeFile, locale: string)

  function WriteResults(plan: seq<Attempt>, wrote: string -> bool): (results: seq<WriteResult>)
    ensures |results| == |plan|
    ensures forall k :: 0 <= k < |plan| ==>
              results[k] == WriteResult(wrote(plan[k].path), plan[k].file, plan[k].locale)
  {
    seq(|plan|, k requires 0 <= k < |plan| => WriteResult(wrote(plan[k].path), plan[k].file, plan[k].locale))
  }

  /** `results.filter(r => !r.success).map(r => r.file)` */
  function FailedWrites(results: seq<WriteResult>): seq<ThemeFile>
  {
    if |results| == 0 then []
    else
      var last := results[|results| - 1];
      FailedWrites(results[..|results| - 1]) + (if last.success then [] else [last.file])
  }

  /** The failed files are listed in the order of their attempts, one entry
      per failed attempt, so a file appears once for each locale it could
      not be written to. */
  lemma FailedWritesExactly(results: seq<WriteResult>)
    ensures |FailedWrites(results)| == |set k | 0 <= k < |results| && !results[k].success|
    ensures forall f :: f in FailedWrites(results) <==>
              exists k :: 0 <= k < |results| && !results[k].success && results[k].file == f
  {
    FailedWritesCount(results);
    FailedWritesMembers(results);
  }

  lemma {:induction false} FailedWritesCount(results: seq<WriteResult>)
    ensures |FailedWrites(results)| == |set k | 0 <= k < |results| && !results[k].success|
  {
    if |results| > 0 {
      var n := |results| - 1;
      var init := results[..n];
      FailedWritesCount(init);
      var before := set k | 0 <= k < n && !init[k].success;
      var now := set k | 0 <= k < |results| && !results[k].success;
      assert before == set k | 0 <= k < n && !results[k].success;
      if results[n].success {
        assert now == before;
      } else {
        assert now == before + {n};
      }
    }
  }

  lemma {:induction false} FailedWritesMembers(results: seq<WriteResult>)
    ensures forall f :: f in FailedWrites(results) <==>
              exists k :: 0 <= k < |results| && !results[k].success && results[k].file == f
  {
    if |results| > 0 {
      var n := |results| - 1;
      var init := results[..n];
      FailedWritesMembers(init);
      forall f | (exists k :: 0 <= k < |results| && !results[k].success && results[k].file == f)
        ensures f in FailedWrites(results)
      {
        var k :| 0 <= k < |results| && !results[k].success && results[k].file == f;
        if k < n {
          assert init[k] == results[k];
        }
      }
      forall f | f in FailedWrites(init)
        ensures exists k :: 0 <= k < |results| && !results[k].success && results[k].file == f
      {
        var k :| 0 <= k < n && !init[k].success && init[k].file == f;
        assert results[k] == init[k];
      }
    }
  }

  /** The failed files keep the order of their attempts: the failures of a
      run that goes on are those of its first part followed by those of the
      rest. */
  lemma {:induction false} FailedWritesAppend(xs: seq<WriteResult>, ys: seq<WriteResult>)
    ensures FailedWrites(xs + ys) == FailedWrites(xs) + FailedWrites(ys)
    decreases |ys|
  {
    if |ys| > 0 {
      var n := |ys| - 1;
      assert (xs + ys)[..|xs + ys| - 1] == xs + ys[..n];
      assert (xs + ys)[|xs + ys| - 1] == ys[n];
      FailedWritesAppend(xs, ys[..n]);
    } else {
      assert xs + ys == xs;
    }
  }

  /** One attempt is reported exactly when it failed. */
  lemma FailedWritesOne(r: WriteResult)
    ensures FailedWrites([r]) == if r.success then [] else [r.file]
  {
    assert [r][..0] == [];
  }

  /** When every write succeeds nothing is reported. */
  lemma {:induction false} AllWritesSucceed(results: seq<WriteResult>)
    requires forall k :: 0 <= k < |results| ==> results[k].success
    ensures FailedWrites(results) == []
  {
    if |results| > 0 {
      AllWritesSucceed(results[..|results| - 1]);
    }
  }
}
