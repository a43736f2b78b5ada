/** Themes of a Magento store: which ones can be optimised
    (getEligibleThemes.ts) and the chain of parents a theme inherits from
    (getThemeHierarchy.ts). */
module Themes {
  import opened Wrappers
  import opened Records

  /** The area a theme belongs to, as spelled in paths. */
  const FRONTEND := "frontend"
  const ADMINHTML := "adminhtml"

  datatype Theme = Theme(
    vendor: string,
    name: string,
    themeID: string,
    area: string,
    parentID: Option<string>,
    path: string)

  /** `theme.parentID` is truthy: an absent or empty parent means none. */
  predicate HasParent(t: Theme)
  {
    t.parentID.Some? && t.parentID.value != ""
  }

  datatype Module = Module(moduleID: string, path: string)

  datatype Components = Components(modules: Record<Module>, themes: Record<Theme>)

  datatype StoreData = StoreData(
    enabledModules: seq<string>,
    components: Components,
    deployedThemes: seq<string>)

  /** The base theme, which is never optimised. */
  const BLANK_THEME := "Magento/blank"

  /** The three conditions of getEligibleThemes: a frontend theme, not the
      blank theme, and deployed to pub/static. */
  predicate IsEligible(t: Theme, deployed: seq<string>)
  {
    t.area == FRONTEND && t.themeID != BLANK_THEME && t.themeID in deployed
  }

  /** The filter/filter/map chain over a list of themes. */
  function EligibleOf(ts: seq<Theme>, deployed: seq<string>): seq<string>
  {
    if |ts| == 0 then []
    else
      var t := ts[|ts| - 1];
      EligibleOf(ts[..|ts| - 1], deployed) + (if IsEligible(t, deployed) then [t.themeID] else [])
  }

  /** `getEligibleThemes(store)`, over the themes in record order. */
  function GetEligibleThemes(store: StoreData): seq<string>
    requires store.components.themes.Valid()
  {
    EligibleOf(store.components.themes.Values(), store.deployedThemes)
  }

  /** Every ID returned belongs to an eligible theme of the list, so it is
      deployed and is not the blank theme; and every eligible theme of the
      list is returned. */
  lemma {:induction false} EligibleOfExactly(ts: seq<Theme>, deployed: seq<string>)
    ensures forall id :: id in EligibleOf(ts, deployed) ==>
              exists t :: t in ts && IsEligible(t, deployed) && t.themeID == id
    ensures forall id :: id in EligibleOf(ts, deployed) ==> id in deployed && id != BLANK_THEME
    ensures forall t :: t in ts && IsEligible(t, deployed) ==> t.themeID in EligibleOf(ts, deployed)
  {
    if |ts| > 0 {
      var init := ts[..|ts| - 1];
      EligibleOfExactly(init, deployed);
      forall t | t in ts && IsEligible(t, deployed)
        ensures t.themeID in EligibleOf(ts, deployed)
      {
        if t != ts[|ts| - 1] {
          var i :| 0 <= i < |ts| && ts[i] == t;
          assert init[i] == t;
        }
      }
    }
  }

  /** The themes are taken in order: the result for two lists one after the
      other is the result for the first followed by that for the second. */
  lemma {:induction false} EligibleOfAppend(ts: seq<Theme>, us: seq<Theme>, deployed: seq<string>)
    ensures EligibleOf(ts + us, deployed) == EligibleOf(ts, deployed) + EligibleOf(us, deployed)
    decreases |us|
  {
    if |us| == 0 {
      assert ts + us == ts;
    } else {
      assert (ts + us)[..|ts + us| - 1] == ts + us[..|us| - 1];
      EligibleOfAppend(ts, us[..|us| - 1], deployed);
    }
  }

  /** Nothing is eligible when no theme is deployed. */
  lemma {:induction false} NothingDeployed(ts: seq<Theme>)
    ensures EligibleOf(ts, []) == []
  {
    if |ts| > 0 {
      NothingDeployed(ts[..|ts| - 1]);
    }
  }

  /** Two frontend themes, only the first deployed: only the first is
      returned. */
  lemma OnlyDeployedTheme(luma: Theme, foobar: Theme)
    requires luma.area == FRONTEND && luma.themeID == "Magento/luma"
    requires foobar.themeID == "Magento/foobar"
    ensures EligibleOf([luma, foobar], ["Magento/luma"]) == ["Magento/luma"]
  {
    assert "Magento/foobar"[8] != "Magento/luma"[8];
    assert !IsEligible(foobar, ["Magento/luma"]);
    assert [luma, foobar][..1] == [luma];
    assert [luma][..0] == [];
    assert IsEligible(luma, ["Magento/luma"]);
    assert EligibleOf([luma], ["Magento/luma"]) == ["Magento/luma"];
  }

  /** `Object.values(themes).find(t => t.themeID === id)`: the first theme in
      order with that ID, if any. */
  function FindTheme(ts: seq<Theme>, id: string): (r: Option<Theme>)
    ensures r.None? <==> forall t :: t in ts ==> t.themeID != id
    ensures r.Some? ==> exists i :: 0 <= i < |ts| && ts[i] == r.value && r.value.themeID == id &&
                          forall j :: 0 <= j < i ==> ts[j].themeID != id
  {
    if |ts| == 0 then None
    else if ts[0].themeID == id then Some(ts[0])
    else
      var r := FindTheme(ts[1..], id);
      if r.Some? then
        var i :| 0 <= i < |ts[1..]| && ts[1..][i] == r.value && r.value.themeID == id &&
                 forall j :: 0 <= j < i ==> ts[1..][j].themeID != id;
        assert ts[i + 1] == r.value;
        r
      else r
  }

  function MissingParent(theme: Theme): string
    requires HasParent(theme)
  {
    "Theme \"" + theme.themeID + "\" specified a parent (in theme.xml) of \"" + theme.parentID.value
      + "\", but that theme could not be found."
  }

  /** What the unbounded recursion ends in when the parent links form a
      cycle. */
  const HIERARCHY_TOO_DEEP := "Maximum call stack size exceeded"

  /** The recursion of getThemeHierarchy: `deps` is the shared accumulator
      that each level extends at the front with the parent it found. */
  function HierarchyFrom(theme: Theme, themes: seq<Theme>, deps: seq<Theme>, fuel: nat): Result<seq<Theme>>
    decreases fuel
  {
    if !HasParent(theme) then Ok(deps)
    else if fuel == 0 then Err(HIERARCHY_TOO_DEEP)
    else
      match FindTheme(themes, theme.parentID.value)
      case None => Err(MissingParent(theme))
      case Some(parent) => HierarchyFrom(parent, themes, [parent] + deps, fuel - 1)
  }

  /** `getThemeHierarchy(theme, themes)`: one level of recursion per theme of
      the record, and one more, before the chain is taken to be cyclic. */
  function GetThemeHierarchy(theme: Theme, themes: Record<Theme>): Result<seq<Theme>>
    requires themes.Valid()
  {
    HierarchyFrom(theme, themes.Values(), [theme], |themes.keys| + 1)
  }

  /** Each theme names the one before it as its parent. */
  predicate Linked(xs: seq<Theme>)
  {
    forall i :: 0 <= i < |xs| - 1 ==> xs[i + 1].parentID == Some(xs[i].themeID)
  }

  /** A successful recursion ends the accumulator with what it was given,
      puts in front of it parents taken from the list, keeps every link, and
      starts with a theme that has no parent. */
  lemma {:induction false} HierarchyFromShape(theme: Theme, themes: seq<Theme>, deps: seq<Theme>, fuel: nat)
    requires |deps| >= 1 && deps[0] == theme && Linked(deps)
    requires HierarchyFrom(theme, themes, deps, fuel).Ok?
    ensures var r := HierarchyFrom(theme, themes, deps, fuel).value;
      && |r| >= |deps|
      && r[|r| - |deps|..] == deps
      && !HasParent(r[0])
      && Linked(r)
      && forall i :: 0 <= i < |r| - |deps| ==> r[i] in themes
    decreases fuel
  {
    if HasParent(theme) {
      var parent := FindTheme(themes, theme.parentID.value).value;
      var deps' := [parent] + deps;
      assert deps'[1..] == deps;
      assert Linked(deps') by {
        forall i | 0 <= i < |deps'| - 1 ensures deps'[i + 1].parentID == Some(deps'[i].themeID) {
          if i > 0 {
            assert deps'[i + 1] == deps[i] && deps'[i] == deps[i - 1];
          }
        }
      }
      HierarchyFromShape(parent, themes, deps', fuel - 1);
      var r := HierarchyFrom(parent, themes, deps', fuel - 1).value;
      assert r[|r| - |deps'|..][1..] == r[|r| - |deps|..];
      assert r[|r| - |deps'|] == parent;
      forall i | 0 <= i < |r| - |deps| ensures r[i] in themes {
        if i == |r| - |deps'| {
          assert r[i] == parent;
        }
      }
    }
  }

  /** The hierarchy is ordered base first: it ends with the theme itself,
      begins with a theme without a parent, every theme names the previous one
      as its parent, and all but the last come from the record. */
  lemma HierarchyFacts(theme: Theme, themes: Record<Theme>)
    requires themes.Valid()
    requires GetThemeHierarchy(theme, themes).Ok?
    ensures var r := GetThemeHierarchy(theme, themes).value;
      && |r| >= 1
      && r[|r| - 1] == theme
      && !HasParent(r[0])
      && Linked(r)
      && forall i :: 0 <= i < |r| - 1 ==> r[i] in themes.Values()
  {
    HierarchyFromShape(theme, themes.Values(), [theme], |themes.keys| + 1);
    var r := GetThemeHierarchy(theme, themes).value;
    assert r[|r| - 1..] == [theme];
  }

  /** A theme without a parent is its own hierarchy; a theme whose parent is
      not in the record is an error naming both. */
  lemma HierarchyEnds(theme: Theme, themes: Record<Theme>)
    requires themes.Valid()
    ensures !HasParent(theme) ==> GetThemeHierarchy(theme, themes) == Ok([theme])
    ensures HasParent(theme) && (forall t :: t in themes.Values() ==> t.themeID != theme.parentID.value) ==>
              GetThemeHierarchy(theme, themes) == Err(MissingParent(theme))
  {
  }

  /** The parent taken is the first theme of the record with that ID, and the
      hierarchy continues from it. */
  lemma HierarchyStep(theme: Theme, themes: Record<Theme>, i: nat)
    requires themes.Valid()
    requires HasParent(theme)
    requires i < |themes.keys| && themes.Values()[i].themeID == theme.parentID.value
    requires forall j :: 0 <= j < i ==> themes.Values()[j].themeID != theme.parentID.value
    ensures GetThemeHierarchy(theme, themes)
         == HierarchyFrom(themes.Values()[i], themes.Values(), [themes.Values()[i], theme], |themes.keys|)
  {
    var ts := themes.Values();
    var found := FindTheme(ts, theme.parentID.value);
    var k :| 0 <= k < |ts| && ts[k] == found.value && found.value.themeID == theme.parentID.value &&
             forall j :: 0 <= j < k ==> ts[j].themeID != theme.parentID.value;
    assert k == i;
    assert found == Some(ts[i]);
    assert [ts[i]] + [theme] == [ts[i], theme];
  }

  /** The first `n` ancestors of a theme, nearest first, each found as
      getThemeHierarchy finds it; the chain stops at a theme without a
      parent or with a parent that is not in the list. */
  function Ancestors(theme: Theme, themes: seq<Theme>, n: nat): (r: seq<Theme>)
    ensures |r| <= n
    ensures forall t :: t in r ==> t in themes
    decreases n
  {
    if n == 0 || !HasParent(theme) then []
    else
      match FindTheme(themes, theme.parentID.value)
      case None => []
      case Some(parent) => [parent] + Ancestors(parent, themes, n - 1)
  }

  /** The recursion either succeeds, or reports a missing parent of some
      theme, or runs out of levels; it runs out only after finding as many
      ancestors as it had levels. */
  lemma {:induction false} HierarchyFromOutcomes(theme: Theme, themes: seq<Theme>, deps: seq<Theme>, fuel: nat)
    ensures var r := HierarchyFrom(theme, themes, deps, fuel);
            || r.Ok?
            || (exists t :: HasParent(t) && r == Err(MissingParent(t)))
            || (r == Err(HIERARCHY_TOO_DEEP) && |Ancestors(theme, themes, fuel)| == fuel)
    decreases fuel
  {
    if HasParent(theme) && fuel > 0 {
      match FindTheme(themes, theme.parentID.value)
      case None =>
      case Some(parent) =>
        HierarchyFromOutcomes(parent, themes, [parent] + deps, fuel - 1);
    }
  }

  /** A missing parent is never the stack overflow. */
  lemma MissingParentIsNotTooDeep(t: Theme)
    requires HasParent(t)
    ensures MissingParent(t) != HIERARCHY_TOO_DEEP
  {
    assert MissingParent(t)[0] == 'T';
    assert HIERARCHY_TOO_DEEP[0] == 'M';
  }

  /** No theme occurs twice. */
  predicate NoRepeats(xs: seq<Theme>)
  {
    forall i, j :: 0 <= i < j < |xs| ==> xs[i] != xs[j]
  }

  /** A list without repeats drawn from another list is no longer than it. */
  lemma {:induction false} DistinctWithin(xs: seq<Theme>, ys: seq<Theme>)
    requires NoRepeats(xs)
    requires forall x :: x in xs ==> x in ys
    ensures |xs| <= |ys|
  {
    var a := set x | x in xs;
    var b := set y | y in ys;
    DistinctCard(xs);
    SeqCard(ys);
    assert a <= b;
    assert b == a + (b - a);
  }

  lemma {:induction false} DistinctCard(xs: seq<Theme>)
    requires NoRepeats(xs)
    ensures |set x | x in xs| == |xs|
  {
    if |xs| > 0 {
      var n := |xs| - 1;
      DistinctCard(xs[..n]);
      assert (set x | x in xs) == (set x | x in xs[..n]) + {xs[n]};
      assert xs[n] !in (set x | x in xs[..n]);
    }
  }

  lemma {:induction false} SeqCard(ys: seq<Theme>)
    ensures |set y | y in ys| <= |ys|
  {
    if |ys| > 0 {
      var n := |ys| - 1;
      SeqCard(ys[..n]);
      assert (set y | y in ys) == (set y | y in ys[..n]) + {ys[n]};
    }
  }

  /** The level bound stands in for the source's unbounded recursion only on
      a cycle: when the ancestors of a theme never repeat, the hierarchy is
      found or a missing parent is reported, as in the source. */
  lemma AcyclicHierarchyEnds(theme: Theme, themes: Record<Theme>)
    requires themes.Valid()
    requires NoRepeats(Ancestors(theme, themes.Values(), |themes.keys| + 1))
    ensures var r := GetThemeHierarchy(theme, themes);
            r.Ok? || exists t :: HasParent(t) && r == Err(MissingParent(t))
  {
    var ts := themes.Values();
    var n := |themes.keys| + 1;
    HierarchyFromOutcomes(theme, ts, [theme], n);
    var a := Ancestors(theme, ts, n);
    DistinctWithin(a, ts);
  }
}
