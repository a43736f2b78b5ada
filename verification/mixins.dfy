/** The slice of a Magento RequireJS configuration that bundling reads, and
    the mixin lookup. getMixinsForModule.ts and requireConfig.ts:76-92 hold
    the same function word for word; `GetMixinsForModule` models both. */
module Mixins {
  import opened Wrappers
  import opened Strings
  import opened Records

  /** A shim: the modules a non-AMD script needs, and the global it sets. */
  datatype Shim = Shim(deps: Option<seq<string>>, exports: Option<string>)

  /** A `shim` entry as written: a bare list of deps, or a shim object. */
  datatype ShimEntry = ShimDeps(list: seq<string>) | ShimObject(shim: Shim)

  /** A merged RequireJS configuration. `mixins` is `config.mixins`, with
      `None` when `config` or `mixins` is missing; each module's mixins keep
      their insertion order, and a value is whether the mixin is enabled.
      `shim` lists the shim entries (a missing `shim` is an empty map), and
      `deps` the captured entry-point deps. */
  datatype MagentoRequireConfig = MagentoRequireConfig(
    mixins: Option<map<string, Record<bool>>>,
    shim: map<string, ShimEntry>,
    deps: seq<string>)

  /** The enabled mixins of one entry, in insertion order. */
  function EnabledMixins(entry: Record<bool>): seq<string>
    requires entry.Valid()
  {
    EnabledOf(entry.keys, entry.values)
  }

  function EnabledOf(keys: seq<string>, enabled: map<string, bool>): seq<string>
    requires forall k :: k in keys ==> k in enabled
  {
    if |keys| == 0 then []
    else
      var last := keys[|keys| - 1];
      EnabledOf(keys[..|keys| - 1], enabled) + (if enabled[last] then [last] else [])
  }

  /** What the lookup answers for a module. */
  function MixinsFor(moduleID: string, requireConfig: MagentoRequireConfig): seq<string>
    requires requireConfig.mixins.Some? ==>
               forall m :: m in requireConfig.mixins.value ==> requireConfig.mixins.value[m].Valid()
  {
    match requireConfig.mixins
    case None => []
    case Some(mixins) =>
      if moduleID !in mixins then [] else EnabledMixins(mixins[moduleID])
  }

  /** `xs` is `ys` with some elements left out. */
  predicate SubsequenceOf(xs: seq<string>, ys: seq<string>)
    decreases |ys|
  {
    if |xs| == 0 then true
    else if |ys| == 0 then false
    else if xs[|xs| - 1] == ys[|ys| - 1] then SubsequenceOf(xs[..|xs| - 1], ys[..|ys| - 1])
    else SubsequenceOf(xs, ys[..|ys| - 1])
  }

  /** The result holds exactly the enabled keys, each once, in key order. */
  lemma EnabledOfExactly(keys: seq<string>, enabled: map<string, bool>)
    requires forall k :: k in keys ==> k in enabled
    requires NoDuplicates(keys)
    ensures forall d :: d in EnabledOf(keys, enabled) <==> d in keys && enabled[d]
    ensures SubsequenceOf(EnabledOf(keys, enabled), keys)
    ensures NoDuplicates(EnabledOf(keys, enabled))
  {
    EnabledOfMembers(keys, enabled);
    EnabledOfInOrder(keys, enabled);
    EnabledOfDistinct(keys, enabled);
  }

  /** The last key of a list without duplicates is not among the others. */
  lemma LastNotInInit(keys: seq<string>)
    requires |keys| > 0 && NoDuplicates(keys)
    ensures NoDuplicates(keys[..|keys| - 1])
    ensures keys[|keys| - 1] !in keys[..|keys| - 1]
  {
    var init := keys[..|keys| - 1];
    forall i | 0 <= i < |init| ensures init[i] != keys[|keys| - 1] {
      assert init[i] == keys[i];
    }
  }

  lemma {:induction false} EnabledOfMembers(keys: seq<string>, enabled: map<string, bool>)
    requires forall k :: k in keys ==> k in enabled
    ensures forall d :: d in EnabledOf(keys, enabled) <==> d in keys && enabled[d]
  {
    if |keys| > 0 {
      var init := keys[..|keys| - 1];
      assert forall k :: k in init ==> k in keys;
      EnabledOfMembers(init, enabled);
      assert keys == init + [keys[|keys| - 1]];
    }
  }

  lemma {:induction false} EnabledOfInOrder(keys: seq<string>, enabled: map<string, bool>)
    requires forall k :: k in keys ==> k in enabled
    requires NoDuplicates(keys)
    ensures SubsequenceOf(EnabledOf(keys, enabled), keys)
  {
    if |keys| > 0 {
      var init := keys[..|keys| - 1];
      var last := keys[|keys| - 1];
      assert forall k :: k in init ==> k in keys;
      LastNotInInit(keys);
      EnabledOfInOrder(init, enabled);
      var r := EnabledOf(keys, enabled);
      if enabled[last] {
        assert r[..|r| - 1] == EnabledOf(init, enabled);
      } else if |r| > 0 {
        assert r == EnabledOf(init, enabled);
        EnabledOfMembers(init, enabled);
        assert r[|r| - 1] in init;
        assert r[|r| - 1] != keys[|keys| - 1];
      }
    }
  }

  lemma {:induction false} EnabledOfDistinct(keys: seq<string>, enabled: map<string, bool>)
    requires forall k :: k in keys ==> k in enabled
    requires NoDuplicates(keys)
    ensures NoDuplicates(EnabledOf(keys, enabled))
  {
    if |keys| > 0 {
      var init := keys[..|keys| - 1];
      var last := keys[|keys| - 1];
      assert forall k :: k in init ==> k in keys;
      LastNotInInit(keys);
      EnabledOfDistinct(init, enabled);
      EnabledOfMembers(init, enabled);
      var pre := EnabledOf(init, enabled);
      var r := EnabledOf(keys, enabled);
      if enabled[last] {
        forall i, j | 0 <= i < j < |r| ensures r[i] != r[j] {
          assert r[i] == pre[i];
          if j == |r| - 1 {
            assert r[i] in pre;
          } else {
            assert r[j] == pre[j];
          }
        }
      }
    }
  }

  /** getMixinsForModule */
  method GetMixinsForModule(moduleID: string, requireConfig: MagentoRequireConfig)
    returns (discoveredMixins: seq<string>)
    requires requireConfig.mixins.Some? ==>
               forall m :: m in requireConfig.mixins.value ==> requireConfig.mixins.value[m].Valid()
    ensures discoveredMixins == MixinsFor(moduleID, requireConfig)
    ensures requireConfig.mixins.None? ==> discoveredMixins == []
    ensures requireConfig.mixins.Some? && moduleID !in requireConfig.mixins.value ==> discoveredMixins == []
    ensures requireConfig.mixins.Some? && moduleID in requireConfig.mixins.value ==>
              var entry := requireConfig.mixins.value[moduleID];
              (forall d :: d in discoveredMixins <==> d in entry.keys && entry.values[d])
              && SubsequenceOf(discoveredMixins, entry.keys)
  {
    if requireConfig.mixins.None? {
      return [];
    }
    var mixins := requireConfig.mixins.value;
    if moduleID !in mixins {
      return [];
    }
    var assignedMixins := mixins[moduleID];
    EnabledOfExactly(assignedMixins.keys, assignedMixins.values);
    var entries := assignedMixins.keys;
    discoveredMixins := [];
    var i := 0;
    while i < |entries|
      invariant 0 <= i <= |entries|
      invariant discoveredMixins == EnabledOf(entries[..i], assignedMixins.values)
    {
      var dep := entries[i];
      var enabled := assignedMixins.values[dep];
      assert entries[..i + 1][..i] == entries[..i];
      if enabled {
        discoveredMixins := discoveredMixins + [dep];
      }
      i := i + 1;
    }
    assert entries[..i] == entries;
  }

  /** `{ config: { mixins: { 'foo/bar': { bizz: true, buzz: false } } } }`
      gives ['bizz']: a disabled mixin is left out. */
  lemma DisabledMixinOmitted()
    ensures var entry := Record(["bizz", "buzz"], map["bizz" := true, "buzz" := false]);
            var config := MagentoRequireConfig(Some(map["foo/bar" := entry]), map[], []);
            MixinsFor("foo/bar", config) == ["bizz"]
  {
    var keys := ["bizz", "buzz"];
    var enabled := map["bizz" := true, "buzz" := false];
    var entry := Record(keys, enabled);
    assert entry.Valid();
    assert keys[..1] == ["bizz"];
    assert keys[..1][..0] == [];
    assert EnabledOf(["bizz"], enabled) == ["bizz"];
    assert EnabledOf(keys, enabled) == ["bizz"];
  }
}
