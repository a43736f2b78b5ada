/** cli/build.ts: checking the theme IDs asked for on the command line
    against the eligible themes, and choosing the themes to optimise. */
module Build {
  import opened Wrappers
  import opened Strings
  import opened Records
  import opened Themes
  import opened MagentoFs
  import opened OptimizeThemes

  /** `themeIDs.filter(id => !eligibleThemes.includes(id))` */
  function InvalidThemes(requested: seq<string>, eligible: seq<string>): seq<string>
  {
    if |requested| == 0 then []
    else
      var last := requested[|requested| - 1];
      InvalidThemes(requested[..|requested| - 1], eligible) + (if last in eligible then [] else [last])
  }

  /** The error thrown when some requested themes cannot be optimised. */
  function NotOptimizable(requested: seq<string>, invalid: seq<string>): string
  {
    "You specified " + NatToString(|requested|) + " theme(s) to optimize, but "
      + NatToString(|invalid|) + " of them is not optimizable (" + Join(invalid, ", ") + ").\n\n"
      + "For a theme to be optimizable, it must:\n"
      + "  - Be for the \"frontend\" area\n"
      + "  - Be deployed already with bin/magento setup:static-content:deploy\n"
      + "  - Not have the ID \"Magento/blank\"\n"
  }

  /** `build(magentoRoot, themeIDs)` up to the call of optimizeThemes: the
      requested IDs (None when the option was not given) are checked when
      there are any, and `themeIDs || eligibleThemes` is what gets optimised. */
  function SelectThemes(themeIDs: Option<seq<string>>, eligible: seq<string>): (r: Result<seq<string>>)
    ensures r.Err? <==> themeIDs.Some? && |InvalidThemes(themeIDs.value, eligible)| > 0
    ensures r.Err? ==> r.error == NotOptimizable(themeIDs.value, InvalidThemes(themeIDs.value, eligible))
    ensures r.Ok? && themeIDs.Some? ==> r.value == themeIDs.value
    ensures themeIDs.None? ==> r == Ok(eligible)
  {
    match themeIDs
    case None => Ok(eligible)
    case Some(ids) =>
      if |ids| > 0 && |InvalidThemes(ids, eligible)| > 0 then Err(NotOptimizable(ids, InvalidThemes(ids, eligible)))
      else Ok(ids)
  }

  /** The invalid IDs are exactly the requested IDs that are not eligible,
      kept in request order. */
  lemma {:induction false} InvalidThemesExactly(requested: seq<string>, eligible: seq<string>)
    ensures forall id :: id in InvalidThemes(requested, eligible) <==> id in requested && id !in eligible
    ensures |InvalidThemes(requested, eligible)| <= |requested|
    ensures InvalidThemes(requested, eligible) == [] <==> forall id :: id in requested ==> id in eligible
  {
    if |requested| > 0 {
      var init := requested[..|requested| - 1];
      InvalidThemesExactly(init, eligible);
      assert requested == init + [requested[|requested| - 1]];
    }
  }

  /** Requesting two lists one after the other gives the invalid IDs of
      each in turn. */
  lemma {:induction false} InvalidThemesAppend(xs: seq<string>, ys: seq<string>, eligible: seq<string>)
    ensures InvalidThemes(xs + ys, eligible) == InvalidThemes(xs, eligible) + InvalidThemes(ys, eligible)
    decreases |ys|
  {
    if |ys| == 0 {
      assert xs + ys == xs;
    } else {
      assert (xs + ys)[..|xs + ys| - 1] == xs + ys[..|ys| - 1];
      InvalidThemesAppend(xs, ys[..|ys| - 1], eligible);
    }
  }

  /** Whatever is selected is a list of eligible themes. */
  lemma SelectedAreEligible(themeIDs: Option<seq<string>>, eligible: seq<string>)
    requires SelectThemes(themeIDs, eligible).Ok?
    ensures forall id :: id in SelectThemes(themeIDs, eligible).value ==> id in eligible
  {
    if themeIDs.Some? {
      InvalidThemesExactly(themeIDs.value, eligible);
    }
  }

  /** When the store keys every theme by its ID, the themes the build
      selects all pass optimizeThemes' guards. */
  lemma SelectedThemesPrepare(store: StoreData, themeIDs: Option<seq<string>>)
    requires store.components.themes.Valid() && KeyedByThemeID(store.components.themes)
    requires SelectThemes(themeIDs, GetEligibleThemes(store)).Ok?
    ensures PrepareThemes(SelectThemes(themeIDs, GetEligibleThemes(store)).value, store.components.themes).Ok?
  {
    var ids := SelectThemes(themeIDs, GetEligibleThemes(store)).value;
    SelectedAreEligible(themeIDs, GetEligibleThemes(store));
    forall i | 0 <= i < |ids| ensures Allowed(ids[i], store.components.themes) {
      EligibleThemesAllowed(store, ids[i]);
    }
    PrepareThemesExactly(ids, store.components.themes);
  }

  /** Asking for one theme that is not eligible names it in the error. */
  lemma OneInvalidTheme(id: string, eligible: seq<string>)
    requires id !in eligible
    ensures SelectThemes(Some([id]), eligible) == Err(NotOptimizable([id], [id]))
  {
    assert [id][..0] == [];
    assert InvalidThemes([id], eligible) == [id];
  }
}
