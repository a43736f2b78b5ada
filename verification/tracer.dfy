/** traceAMDDependencies (traceAMDDependencies.ts): a breadth-first walk over
    AMD modules from a list of entry IDs, building the adjacency lists of the
    modules it meets. The RequireJS resolver, the parsers and the file system
    are inputs: a file read is a lookup in `files`, a missing key being a read
    that fails. */
module Tracer {
  import opened Wrappers
  import opened Strings
  import opened Records
  import Paths
  import opened ModuleIds
  import JsParser
  import JsDeps
  import Mixins

  /** What the resolver answers for a request: the resolved module, its path
      relative to the base directory, and the plugin with its path (empty
      strings when there is no plugin, or no resource as in "domReady!"). */
  datatype Resolved = Resolved(moduleID: string, modulePath: string, pluginID: string, pluginPath: string)

  /** The resolver built from the RequireJS config: request and requesting
      module ("" when there is none) to the resolved names. */
  type Resolver = (string, string) -> Resolved

  /** Everything the walk reads and does not change. */
  datatype TraceEnv = TraceEnv(
    requireConfig: Mixins.MagentoRequireConfig,
    baseDir: string,
    resolver: Resolver,
    parsers: JsParser.Parsers,
    files: map<string, string>)

  const ENTRY_POINT_ISSUER := "<entry point>"
  const MIXIN_ISSUER := "<mixin>"

  /** Where a queued module lives and which module first asked for it. */
  datatype CacheEntry = CacheEntry(path: string, issuer: string)

  /** A dependency whose file could not be read. */
  datatype UnreadableDependencyWarning = UnreadableDependencyWarning(resolvedID: string, path: string, issuer: string)

  datatype TraceResult = TraceResult(
    graph: Record<seq<string>>,
    warnings: seq<UnreadableDependencyWarning>,
    resolvedEntryIDs: seq<string>)

  /** The walk's state: the graph (keys in discovery order), the queue of
      modules still to read, the cache of their paths and issuers, and the
      outputs gathered so far. */
  datatype TraceState = TraceState(
    graph: Record<seq<string>>,
    visitQueue: seq<string>,
    moduleCache: map<string, CacheEntry>,
    warnings: seq<UnreadableDependencyWarning>,
    resolvedEntryIDs: seq<string>)

  const INITIAL_STATE := TraceState(Empty(), [], map[], [], [])

  /** Every mixin entry of the config is a well-formed record. */
  predicate ConfigValid(config: Mixins.MagentoRequireConfig)
  {
    config.mixins.Some? ==> forall m :: m in config.mixins.value ==> config.mixins.value[m].Valid()
  }

  /** The state the walk keeps: a queued module is a key whose list is still
      empty and has a cache entry, and no module is queued twice. */
  predicate Wf(s: TraceState)
  {
    && s.graph.Valid()
    && NoDuplicates(s.visitQueue)
    && (forall id :: id in s.visitQueue ==>
          id in s.graph.values && id in s.moduleCache && s.graph.values[id] == [])
  }

  /** Every edge leads to a built-in or to a module of the graph. */
  predicate Closed(s: TraceState)
  {
    forall k, t :: k in s.graph.values && t in s.graph.values[k] ==> IsBuiltIn(t) || t in s.graph.values
  }

  predicate IsJsExtension(ext: string)
  {
    ext == ".js"
  }

  // ---------------------------------------------------------------------
  // One step at a time
  // ---------------------------------------------------------------------

  /** A new module becomes a key with no edges; it is queued, with its path
      and issuer, when `queued`. */
  function AddModule(s: TraceState, moduleID: string, path: string, issuer: string, queued: bool)
    : (r: TraceState)
    requires Wf(s) && moduleID !in s.graph.values
    ensures Wf(r)
    ensures r.graph.values.Keys == s.graph.values.Keys + {moduleID}
    ensures r.graph.keys == s.graph.keys + [moduleID]
    ensures forall k :: k in s.graph.values ==> r.graph.values[k] == s.graph.values[k]
    ensures r.graph.values[moduleID] == []
    ensures r.visitQueue == if queued then s.visitQueue + [moduleID] else s.visitQueue
    ensures queued ==> r.moduleCache == s.moduleCache[moduleID := CacheEntry(path, issuer)]
    ensures !queued ==> r.moduleCache == s.moduleCache
    ensures r.warnings == s.warnings && r.resolvedEntryIDs == s.resolvedEntryIDs
  {
    var graph := ImmutAddProp(s.graph, moduleID, []);
    assert graph.values.Keys == s.graph.values.Keys + {moduleID};
    if !queued then s.(graph := graph)
    else
      var r := s.(graph := graph,
                  visitQueue := s.visitQueue + [moduleID],
                  moduleCache := s.moduleCache[moduleID := CacheEntry(path, issuer)]);
      assert moduleID !in s.visitQueue;
      assert NoDuplicates(r.visitQueue);
      r
  }

  /** queueDependency: a module seen before is skipped; a new one becomes a
      key with no edges, and is queued (with its path and issuer) only when
      its joined path has the extension ".js". */
  function Enqueue(env: TraceEnv, s: TraceState, moduleID: string, modulePath: string, issuer: string)
    : (r: TraceState)
    requires Wf(s)
    ensures Wf(r)
    ensures moduleID in s.graph.values ==> r == s
    ensures r.graph.values.Keys == s.graph.values.Keys + {moduleID}
    ensures forall k :: k in s.graph.values ==> r.graph.values[k] == s.graph.values[k]
    ensures r.warnings == s.warnings && r.resolvedEntryIDs == s.resolvedEntryIDs
    ensures |r.visitQueue| <= |s.visitQueue| + 1
    ensures moduleID !in s.graph.values ==> r.graph.values[moduleID] == []
  {
    if moduleID in s.graph.values then s
    else
      var path := Paths.Join(env.baseDir, modulePath);
      AddModule(s, moduleID, path, issuer, IsJsExtension(Paths.Extname(path)))
  }

  /** `graph[moduleID].push(target)` */
  function Push(s: TraceState, moduleID: string, target: string): (r: TraceState)
    requires Wf(s) && moduleID in s.graph.values && moduleID !in s.visitQueue
    ensures Wf(r)
    ensures r.graph.values.Keys == s.graph.values.Keys
    ensures r.graph.values[moduleID] == s.graph.values[moduleID] + [target]
    ensures forall k :: k in s.graph.values && k != moduleID ==> r.graph.values[k] == s.graph.values[k]
    ensures r.visitQueue == s.visitQueue
    ensures r.warnings == s.warnings && r.resolvedEntryIDs == s.resolvedEntryIDs
  {
    var graph := ImmutAddProp(s.graph, moduleID, s.graph.values[moduleID] + [target]);
    assert graph.values.Keys == s.graph.values.Keys;
    s.(graph := graph)
  }

  /** Seeding with one entry: its resolved ID is recorded and queued even
      when empty, then its plugin, if any, with the module as issuer. */
  function SeedEntry(env: TraceEnv, s: TraceState, entryID: string): (r: TraceState)
    requires Wf(s)
    ensures Wf(r)
    ensures r.resolvedEntryIDs == s.resolvedEntryIDs + [env.resolver(entryID, "").moduleID]
    ensures env.resolver(entryID, "").moduleID in r.graph.values
    ensures s.graph.values.Keys <= r.graph.values.Keys
  {
    var resolved := env.resolver(entryID, "");
    var s1 := s.(resolvedEntryIDs := s.resolvedEntryIDs + [resolved.moduleID]);
    var s2 := Enqueue(env, s1, resolved.moduleID, resolved.modulePath, ENTRY_POINT_ISSUER);
    if resolved.pluginID != "" then Enqueue(env, s2, resolved.pluginID, resolved.pluginPath, resolved.moduleID)
    else s2
  }

  /** The state after seeding with every entry, in order. */
  function Seed(env: TraceEnv, entryModuleIDs: seq<string>): (r: TraceState)
    ensures Wf(r)
  {
    if |entryModuleIDs| == 0 then INITIAL_STATE
    else SeedEntry(env, Seed(env, entryModuleIDs[..|entryModuleIDs| - 1]), entryModuleIDs[|entryModuleIDs| - 1])
  }

  /** One more entry of the list is one more seeding step. */
  lemma SeedPrefix(env: TraceEnv, entryModuleIDs: seq<string>, i: nat)
    requires i < |entryModuleIDs|
    ensures Seed(env, entryModuleIDs[..i + 1]) == SeedEntry(env, Seed(env, entryModuleIDs[..i]), entryModuleIDs[i])
  {
    assert entryModuleIDs[..i + 1][..i] == entryModuleIDs[..i];
  }

  /** An edge from the module being read to `target`, which is then queued. */
  function Link(env: TraceEnv, s: TraceState, moduleID: string, target: string, path: string, issuer: string)
    : (r: TraceState)
    requires Wf(s) && moduleID in s.graph.values && moduleID !in s.visitQueue
    ensures Wf(r) && moduleID in r.graph.values && moduleID !in r.visitQueue
    ensures r.graph.values.Keys == s.graph.values.Keys + {target}
    ensures r.graph.values[moduleID] == s.graph.values[moduleID] + [target]
    ensures r.warnings == s.warnings && r.resolvedEntryIDs == s.resolvedEntryIDs
  {
    Enqueue(env, Push(s, moduleID, target), target, path, issuer)
  }

  /** One mixin of the module being read: an edge to the mixin, resolved
      once more, which is queued with issuer "<mixin>". */
  function MixinStep(env: TraceEnv, s: TraceState, moduleID: string, mixin: string): (r: TraceState)
    requires Wf(s) && moduleID in s.graph.values && moduleID !in s.visitQueue
    ensures Wf(r) && moduleID in r.graph.values && moduleID !in r.visitQueue
    ensures s.graph.values.Keys <= r.graph.values.Keys
    ensures r.graph.values[moduleID] == s.graph.values[moduleID] + [MixinTarget(env, mixin)]
    ensures r.warnings == s.warnings && r.resolvedEntryIDs == s.resolvedEntryIDs
  {
    var resolvedMixin := env.resolver(mixin, "");
    Link(env, s, moduleID, resolvedMixin.moduleID, resolvedMixin.modulePath, MIXIN_ISSUER)
  }

  /** A mixin resolved once more. */
  function MixinTarget(env: TraceEnv, mixin: string): string
  {
    env.resolver(mixin, "").moduleID
  }

  /** The edges the mixins add: each mixin resolved once more. */
  function MixinTargets(env: TraceEnv, mixins: seq<string>): seq<string>
  {
    if |mixins| == 0 then []
    else MixinTargets(env, mixins[..|mixins| - 1]) + [MixinTarget(env, mixins[|mixins| - 1])]
  }

  function MixinSteps(env: TraceEnv, s: TraceState, moduleID: string, mixins: seq<string>): (r: TraceState)
    requires Wf(s) && moduleID in s.graph.values && moduleID !in s.visitQueue
    ensures Wf(r) && moduleID in r.graph.values && moduleID !in r.visitQueue
    ensures s.graph.values.Keys <= r.graph.values.Keys
    ensures r.graph.values[moduleID] == s.graph.values[moduleID] + MixinTargets(env, mixins)
    ensures r.warnings == s.warnings && r.resolvedEntryIDs == s.resolvedEntryIDs
  {
    if |mixins| == 0 then s
    else
      var init := mixins[..|mixins| - 1];
      var last := mixins[|mixins| - 1];
      var s1 := MixinSteps(env, s, moduleID, init);
      var r := MixinStep(env, s1, moduleID, last);
      AppendTwice(s.graph.values[moduleID], MixinTargets(env, init), [MixinTarget(env, last)],
                  s1.graph.values[moduleID], r.graph.values[moduleID]);
      r
  }

  /** The edges one dependency adds: a built-in itself; otherwise the
      resolved module ID when not empty, then the plugin when there is one. */
  function DepTargets(env: TraceEnv, moduleID: string, dep: string): seq<string>
  {
    if IsBuiltIn(dep) then [dep]
    else
      var result := env.resolver(dep, moduleID);
      (if result.moduleID != "" then [result.moduleID] else [])
      + (if result.pluginID != "" then [result.pluginID] else [])
  }

  function AllDepTargets(env: TraceEnv, moduleID: string, deps: seq<string>): seq<string>
  {
    if |deps| == 0 then []
    else AllDepTargets(env, moduleID, deps[..|deps| - 1]) + DepTargets(env, moduleID, deps[|deps| - 1])
  }

  /** A dependency that is not a built-in, resolved to `result`: a
      non-empty module ID is an edge and is queued with the module as issuer,
      and a plugin is an edge and is queued with the resolved ID as issuer. */
  function ResolvedDepStep(env: TraceEnv, s: TraceState, moduleID: string, result: Resolved): (r: TraceState)
    requires Wf(s) && moduleID in s.graph.values && moduleID !in s.visitQueue
    ensures Wf(r) && moduleID in r.graph.values && moduleID !in r.visitQueue
    ensures s.graph.values.Keys <= r.graph.values.Keys
    ensures r.graph.values[moduleID] == s.graph.values[moduleID]
                                        + (if result.moduleID != "" then [result.moduleID] else [])
                                        + (if result.pluginID != "" then [result.pluginID] else [])
    ensures r.warnings == s.warnings && r.resolvedEntryIDs == s.resolvedEntryIDs
  {
    var first := if result.moduleID != "" then [result.moduleID] else [];
    var second := if result.pluginID != "" then [result.pluginID] else [];
    var s1 := if result.moduleID != "" then Link(env, s, moduleID, result.moduleID, result.modulePath, moduleID)
              else s;
    assert s1.graph.values[moduleID] == s.graph.values[moduleID] + first;
    var r := if result.pluginID != "" then Link(env, s1, moduleID, result.pluginID, result.pluginPath, result.moduleID)
             else s1;
    assert r.graph.values[moduleID] == s1.graph.values[moduleID] + second;
    r
  }

  /** One dependency of the module being read: a built-in is an edge and
      nothing more; anything else is resolved against the module. */
  function DepStep(env: TraceEnv, s: TraceState, moduleID: string, dep: string): (r: TraceState)
    requires Wf(s) && moduleID in s.graph.values && moduleID !in s.visitQueue
    ensures Wf(r) && moduleID in r.graph.values && moduleID !in r.visitQueue
    ensures s.graph.values.Keys <= r.graph.values.Keys
    ensures r.warnings == s.warnings && r.resolvedEntryIDs == s.resolvedEntryIDs
  {
    if IsBuiltIn(dep) then Push(s, moduleID, dep)
    else ResolvedDepStep(env, s, moduleID, env.resolver(dep, moduleID))
  }

  /** One dependency appends exactly its targets to the module's list. */
  lemma DepStepEdges(env: TraceEnv, s: TraceState, moduleID: string, dep: string)
    requires Wf(s) && moduleID in s.graph.values && moduleID !in s.visitQueue
    ensures DepStep(env, s, moduleID, dep).graph.values[moduleID]
         == s.graph.values[moduleID] + DepTargets(env, moduleID, dep)
  {
  }

  /** Appending `before` and then `added` to `edges` appends their concatenation. */
  lemma AppendTwice(edges: seq<string>, before: seq<string>, added: seq<string>, middle: seq<string>, last: seq<string>)
    requires middle == edges + before && last == middle + added
    ensures last == edges + (before + added)
  {
  }

  function DepSteps(env: TraceEnv, s: TraceState, moduleID: string, deps: seq<string>): (r: TraceState)
    requires Wf(s) && moduleID in s.graph.values && moduleID !in s.visitQueue
    ensures Wf(r) && moduleID in r.graph.values && moduleID !in r.visitQueue
    ensures s.graph.values.Keys <= r.graph.values.Keys
    ensures r.graph.values[moduleID] == s.graph.values[moduleID] + AllDepTargets(env, moduleID, deps)
    ensures r.warnings == s.warnings && r.resolvedEntryIDs == s.resolvedEntryIDs
  {
    if |deps| == 0 then s
    else
      var init := deps[..|deps| - 1];
      var s1 := DepSteps(env, s, moduleID, init);
      var last := deps[|deps| - 1];
      var r := DepStep(env, s1, moduleID, last);
      DepStepEdges(env, s1, moduleID, last);
      AppendTwice(s.graph.values[moduleID], AllDepTargets(env, moduleID, init), DepTargets(env, moduleID, last),
                  s1.graph.values[moduleID], r.graph.values[moduleID]);
      r
  }

  /** One more dependency of the list is one more step. */
  lemma DepStepsPrefix(env: TraceEnv, s: TraceState, moduleID: string, deps: seq<string>, i: nat)
    requires Wf(s) && moduleID in s.graph.values && moduleID !in s.visitQueue
    requires i < |deps|
    ensures DepSteps(env, s, moduleID, deps[..i + 1])
         == DepStep(env, DepSteps(env, s, moduleID, deps[..i]), moduleID, deps[i])
  {
    assert deps[..i + 1][..i] == deps[..i];
  }

  /** One more mixin of the list is one more step. */
  lemma MixinStepsPrefix(env: TraceEnv, s: TraceState, moduleID: string, mixins: seq<string>, i: nat)
    requires Wf(s) && moduleID in s.graph.values && moduleID !in s.visitQueue
    requires i < |mixins|
    ensures MixinSteps(env, s, moduleID, mixins[..i + 1])
         == MixinStep(env, MixinSteps(env, s, moduleID, mixins[..i]), moduleID, mixins[i])
  {
    assert mixins[..i + 1][..i] == mixins[..i];
  }

  /** The module's enabled mixins, each resolved to its module ID. */
  function ResolvedMixinIDs(env: TraceEnv, moduleID: string): seq<string>
    requires ConfigValid(env.requireConfig)
  {
    var discovered := Mixins.MixinsFor(moduleID, env.requireConfig);
    seq(|discovered|, i requires 0 <= i < |discovered| => env.resolver(discovered[i], "").moduleID)
  }

  /** Reading the module at the head of the queue. An unreadable file gives
      one warning and nothing else; a source the parser rejects ends the whole
      walk with its error; otherwise the mixin edges, then the dependency
      edges. */
  function Visit(env: TraceEnv, s: TraceState): (r: Result<TraceState>)
    requires ConfigValid(env.requireConfig)
    requires Wf(s) && |s.visitQueue| > 0
    ensures r.Ok? ==> Wf(r.value) && s.graph.values.Keys <= r.value.graph.values.Keys
    ensures r.Ok? ==> r.value.resolvedEntryIDs == s.resolvedEntryIDs
  {
    var moduleID := s.visitQueue[0];
    var s0 := s.(visitQueue := s.visitQueue[1..]);
    var entry := s.moduleCache[moduleID];
    assert Wf(s0) && moduleID !in s0.visitQueue by {
      assert forall i :: 0 <= i < |s0.visitQueue| ==> s0.visitQueue[i] == s.visitQueue[i + 1];
    }
    if entry.path !in env.files then
      Ok(s0.(warnings := s0.warnings + [UnreadableDependencyWarning(moduleID, entry.path, entry.issuer)]))
    else
      match JsDeps.JavaScriptDeps(env.parsers, env.files[entry.path], false)
      case Err(e) => Err(e)
      case Ok(parsed) =>
        var s1 := MixinSteps(env, s0, moduleID, ResolvedMixinIDs(env, moduleID));
        Ok(DepSteps(env, s1, moduleID, parsed.deps))
  }

  // ---------------------------------------------------------------------
  // The whole walk
  // ---------------------------------------------------------------------

  /** The resolver only ever names modules of a finite set. The walk makes
      each module a key at most once, so this bounds its length. */
  ghost predicate Bounded(resolver: Resolver, universe: set<string>)
  {
    forall id, issuer :: resolver(id, issuer).moduleID in universe && resolver(id, issuer).pluginID in universe
  }

  /** Modules not yet met count twice, queued ones once: queueing a new
      module lowers it by one, and reading a module lowers it by one. */
  function Potential(s: TraceState, universe: set<string>): nat
  {
    2 * |universe - s.graph.values.Keys| + |s.visitQueue|
  }

  lemma OneMoreKnown(universe: set<string>, known: set<string>, x: string)
    requires x in universe && x !in known
    ensures |universe - (known + {x})| == |universe - known| - 1
  {
    assert universe - (known + {x}) == (universe - known) - {x};
  }

  lemma EnqueueLowersPotential(env: TraceEnv, s: TraceState, moduleID: string, modulePath: string, issuer: string,
                               universe: set<string>)
    requires Wf(s) && s.graph.values.Keys <= universe && moduleID in universe
    ensures var r := Enqueue(env, s, moduleID, modulePath, issuer);
            r.graph.values.Keys <= universe && Potential(r, universe) <= Potential(s, universe)
  {
    if moduleID !in s.graph.values {
      var r := Enqueue(env, s, moduleID, modulePath, issuer);
      OneMoreKnown(universe, s.graph.values.Keys, moduleID);
    }
  }

  lemma LinkLowersPotential(env: TraceEnv, s: TraceState, moduleID: string, target: string, path: string,
                            issuer: string, universe: set<string>)
    requires Wf(s) && moduleID in s.graph.values && moduleID !in s.visitQueue
    requires s.graph.values.Keys <= universe && target in universe
    ensures var r := Link(env, s, moduleID, target, path, issuer);
            r.graph.values.Keys <= universe && Potential(r, universe) <= Potential(s, universe)
  {
    EnqueueLowersPotential(env, Push(s, moduleID, target), target, path, issuer, universe);
  }

  lemma {:induction false} MixinStepsLowerPotential(env: TraceEnv, s: TraceState, moduleID: string,
                                                    mixins: seq<string>, universe: set<string>)
    requires Wf(s) && moduleID in s.graph.values && moduleID !in s.visitQueue
    requires Bounded(env.resolver, universe) && s.graph.values.Keys <= universe
    ensures var r := MixinSteps(env, s, moduleID, mixins);
            r.graph.values.Keys <= universe && Potential(r, universe) <= Potential(s, universe)
  {
    if |mixins| > 0 {
      var init := mixins[..|mixins| - 1];
      MixinStepsLowerPotential(env, s, moduleID, init, universe);
      var s1 := MixinSteps(env, s, moduleID, init);
      var resolvedMixin := env.resolver(mixins[|mixins| - 1], "");
      LinkLowersPotential(env, s1, moduleID, resolvedMixin.moduleID, resolvedMixin.modulePath, MIXIN_ISSUER, universe);
    }
  }

  lemma DepStepLowersPotential(env: TraceEnv, s: TraceState, moduleID: string, dep: string, universe: set<string>)
    requires Wf(s) && moduleID in s.graph.values && moduleID !in s.visitQueue
    requires Bounded(env.resolver, universe) && s.graph.values.Keys <= universe
    ensures var r := DepStep(env, s, moduleID, dep);
            r.graph.values.Keys <= universe && Potential(r, universe) <= Potential(s, universe)
  {
    if !IsBuiltIn(dep) {
      var result := env.resolver(dep, moduleID);
      var s1 := if result.moduleID != "" then Link(env, s, moduleID, result.moduleID, result.modulePath, moduleID)
                else s;
      if result.moduleID != "" {
        LinkLowersPotential(env, s, moduleID, result.moduleID, result.modulePath, moduleID, universe);
      }
      if result.pluginID != "" {
        LinkLowersPotential(env, s1, moduleID, result.pluginID, result.pluginPath, result.moduleID, universe);
      }
      assert DepStep(env, s, moduleID, dep) == ResolvedDepStep(env, s, moduleID, result);
    }
  }

  lemma {:induction false} DepStepsLowerPotential(env: TraceEnv, s: TraceState, moduleID: string,
                                                  deps: seq<string>, universe: set<string>)
    requires Wf(s) && moduleID in s.graph.values && moduleID !in s.visitQueue
    requires Bounded(env.resolver, universe) && s.graph.values.Keys <= universe
    ensures var r := DepSteps(env, s, moduleID, deps);
            r.graph.values.Keys <= universe && Potential(r, universe) <= Potential(s, universe)
  {
    if |deps| > 0 {
      var init := deps[..|deps| - 1];
      DepStepsLowerPotential(env, s, moduleID, init, universe);
      DepStepLowersPotential(env, DepSteps(env, s, moduleID, init), moduleID, deps[|deps| - 1], universe);
    }
  }

  /** Every read lowers the potential, so the walk ends, cycles or not. */
  lemma VisitLowersPotential(env: TraceEnv, s: TraceState, universe: set<string>)
    requires ConfigValid(env.requireConfig)
    requires Wf(s) && |s.visitQueue| > 0
    requires Bounded(env.resolver, universe) && s.graph.values.Keys <= universe
    ensures Visit(env, s).Ok? ==>
              Visit(env, s).value.graph.values.Keys <= universe
              && Potential(Visit(env, s).value, universe) < Potential(s, universe)
  {
    var moduleID := s.visitQueue[0];
    var s0 := s.(visitQueue := s.visitQueue[1..]);
    var entry := s.moduleCache[moduleID];
    assert Wf(s0) && moduleID !in s0.visitQueue by {
      assert forall i :: 0 <= i < |s0.visitQueue| ==> s0.visitQueue[i] == s.visitQueue[i + 1];
    }
    if entry.path in env.files {
      var parsed := JsDeps.JavaScriptDeps(env.parsers, env.files[entry.path], false);
      if parsed.Ok? {
        var mixins := ResolvedMixinIDs(env, moduleID);
        MixinStepsLowerPotential(env, s0, moduleID, mixins, universe);
        DepStepsLowerPotential(env, MixinSteps(env, s0, moduleID, mixins), moduleID, parsed.value.deps, universe);
      }
    }
  }

  /** Reading modules until the queue is empty; a parse error ends the walk. */
  function Run(env: TraceEnv, s: TraceState, ghost universe: set<string>): (r: Result<TraceState>)
    requires ConfigValid(env.requireConfig)
    requires Wf(s) && Bounded(env.resolver, universe) && s.graph.values.Keys <= universe
    ensures r.Ok? ==> Wf(r.value) && |r.value.visitQueue| == 0
    ensures r.Ok? ==> s.graph.values.Keys <= r.value.graph.values.Keys
    ensures r.Ok? ==> r.value.resolvedEntryIDs == s.resolvedEntryIDs
    decreases Potential(s, universe)
  {
    if |s.visitQueue| == 0 then Ok(s)
    else
      match Visit(env, s)
      case Err(e) => Err(e)
      case Ok(next) =>
        VisitLowersPotential(env, s, universe);
        Run(env, next, universe)
  }

  lemma {:induction false} SeedWithin(env: TraceEnv, entryModuleIDs: seq<string>, universe: set<string>)
    requires Bounded(env.resolver, universe)
    ensures Seed(env, entryModuleIDs).graph.values.Keys <= universe
  {
    if |entryModuleIDs| > 0 {
      var s := Seed(env, entryModuleIDs[..|entryModuleIDs| - 1]);
      SeedWithin(env, entryModuleIDs[..|entryModuleIDs| - 1], universe);
      var entryID := entryModuleIDs[|entryModuleIDs| - 1];
      var resolved := env.resolver(entryID, "");
      var s1 := s.(resolvedEntryIDs := s.resolvedEntryIDs + [resolved.moduleID]);
      EnqueueLowersPotential(env, s1, resolved.moduleID, resolved.modulePath, ENTRY_POINT_ISSUER, universe);
      var s2 := Enqueue(env, s1, resolved.moduleID, resolved.modulePath, ENTRY_POINT_ISSUER);
      if resolved.pluginID != "" {
        EnqueueLowersPotential(env, s2, resolved.pluginID, resolved.pluginPath, resolved.moduleID, universe);
      }
    }
  }

  /** traceAMDDependencies as a whole: seed with the entries, then walk. */
  function Trace(env: TraceEnv, entryModuleIDs: seq<string>, ghost universe: set<string>): Result<TraceResult>
    requires ConfigValid(env.requireConfig) && Bounded(env.resolver, universe)
  {
    SeedWithin(env, entryModuleIDs, universe);
    match Run(env, Seed(env, entryModuleIDs), universe)
    case Err(e) => Err(e)
    case Ok(s) => Ok(TraceResult(s.graph, s.warnings, s.resolvedEntryIDs))
  }

  // ---------------------------------------------------------------------
  // What the walk promises
  // ---------------------------------------------------------------------

  /** A module met for the first time becomes the last key, with no edges.
      It is queued, with its path and issuer, exactly when its joined path
      has the extension ".js"; otherwise it is never read. */
  lemma EnqueueNewModule(env: TraceEnv, s: TraceState, moduleID: string, modulePath: string, issuer: string)
    requires Wf(s) && moduleID !in s.graph.values
    ensures var r := Enqueue(env, s, moduleID, modulePath, issuer);
            var path := Paths.Join(env.baseDir, modulePath);
            && r.graph.keys == s.graph.keys + [moduleID]
            && r.graph.values[moduleID] == []
            && (IsJsExtension(Paths.Extname(path)) ==>
                  r.visitQueue == s.visitQueue + [moduleID] && r.moduleCache[moduleID] == CacheEntry(path, issuer))
            && (!IsJsExtension(Paths.Extname(path)) ==>
                  r.visitQueue == s.visitQueue && r.moduleCache == s.moduleCache)
  {
  }

  /** A built-in dependency is an edge and nothing more: it is not resolved,
      queued or made a key. */
  lemma BuiltInIsOnlyAnEdge(env: TraceEnv, s: TraceState, moduleID: string, dep: string)
    requires Wf(s) && moduleID in s.graph.values && moduleID !in s.visitQueue
    requires IsBuiltIn(dep)
    ensures var r := DepStep(env, s, moduleID, dep);
            && r.graph.values.Keys == s.graph.values.Keys
            && r.visitQueue == s.visitQueue
            && r.moduleCache == s.moduleCache
            && r.graph.values[moduleID] == s.graph.values[moduleID] + [dep]
  {
  }

  /** A plugin without a resource, such as "domReady!", adds only the plugin
      edge. */
  lemma PluginOnlyDependency(env: TraceEnv, moduleID: string, dep: string)
    requires !IsBuiltIn(dep)
    requires env.resolver(dep, moduleID).moduleID == "" && env.resolver(dep, moduleID).pluginID != ""
    ensures DepTargets(env, moduleID, dep) == [env.resolver(dep, moduleID).pluginID]
  {
  }

  /** An unreadable module adds exactly one warning, naming the module, its
      path and the issuer that first queued it; its list stays empty and the
      walk goes on with the rest of the queue. */
  lemma UnreadableModuleWarns(env: TraceEnv, s: TraceState)
    requires ConfigValid(env.requireConfig) && Wf(s) && |s.visitQueue| > 0
    requires s.moduleCache[s.visitQueue[0]].path !in env.files
    ensures var moduleID := s.visitQueue[0];
            var entry := s.moduleCache[moduleID];
            && Visit(env, s).Ok?
            && Visit(env, s).value.warnings
                 == s.warnings + [UnreadableDependencyWarning(moduleID, entry.path, entry.issuer)]
            && Visit(env, s).value.graph == s.graph
            && Visit(env, s).value.graph.values[moduleID] == []
            && Visit(env, s).value.visitQueue == s.visitQueue[1..]
  {
  }

  /** Reading a module fills its list: first its mixins, resolved twice,
      then the edges of its dependencies in source order. */
  lemma ReadModuleEdges(env: TraceEnv, s: TraceState)
    requires ConfigValid(env.requireConfig) && Wf(s) && |s.visitQueue| > 0
    requires s.moduleCache[s.visitQueue[0]].path in env.files
    requires JsDeps.JavaScriptDeps(env.parsers, env.files[s.moduleCache[s.visitQueue[0]].path], false).Ok?
    ensures var moduleID := s.visitQueue[0];
            var parsed := JsDeps.JavaScriptDeps(env.parsers, env.files[s.moduleCache[moduleID].path], false).value;
            && Visit(env, s).Ok?
            && Visit(env, s).value.graph.values[moduleID]
                 == MixinTargets(env, ResolvedMixinIDs(env, moduleID)) + AllDepTargets(env, moduleID, parsed.deps)
            && Visit(env, s).value.warnings == s.warnings
  {
    var moduleID := s.visitQueue[0];
    var s0 := s.(visitQueue := s.visitQueue[1..]);
    assert Wf(s0) && moduleID !in s0.visitQueue by {
      assert forall i :: 0 <= i < |s0.visitQueue| ==> s0.visitQueue[i] == s.visitQueue[i + 1];
    }
    var parsed := JsDeps.JavaScriptDeps(env.parsers, env.files[s.moduleCache[moduleID].path], false).value;
    var mixins := ResolvedMixinIDs(env, moduleID);
    var s1 := MixinSteps(env, s0, moduleID, mixins);
    var s2 := DepSteps(env, s1, moduleID, parsed.deps);
    assert Visit(env, s) == Ok(s2);
    assert s0.graph.values[moduleID] == [];
    assert s1.graph.values[moduleID] == MixinTargets(env, mixins);
    assert s2.graph.values[moduleID] == MixinTargets(env, mixins) + AllDepTargets(env, moduleID, parsed.deps);
  }

  /** A source the parser rejects ends the whole walk with its error. */
  lemma ParseErrorEndsWalk(env: TraceEnv, s: TraceState, universe: set<string>)
    requires ConfigValid(env.requireConfig) && Wf(s) && |s.visitQueue| > 0
    requires Bounded(env.resolver, universe) && s.graph.values.Keys <= universe
    requires s.moduleCache[s.visitQueue[0]].path in env.files
    requires JsDeps.JavaScriptDeps(env.parsers, env.files[s.moduleCache[s.visitQueue[0]].path], false).Err?
    ensures Run(env, s, universe)
              == Err(JsDeps.JavaScriptDeps(env.parsers, env.files[s.moduleCache[s.visitQueue[0]].path], false).error)
  {
  }

  // Closure: every edge leads to a built-in or to a key.

  lemma ClosedAfterEnqueue(env: TraceEnv, s: TraceState, moduleID: string, modulePath: string, issuer: string)
    requires Wf(s) && Closed(s)
    ensures Closed(Enqueue(env, s, moduleID, modulePath, issuer))
  {
  }

  lemma ClosedAfterLink(env: TraceEnv, s: TraceState, moduleID: string, target: string, path: string, issuer: string)
    requires Wf(s) && moduleID in s.graph.values && moduleID !in s.visitQueue && Closed(s)
    ensures Closed(Link(env, s, moduleID, target, path, issuer))
  {
    var p := Push(s, moduleID, target);
    var r := Link(env, s, moduleID, target, path, issuer);
    forall k, t | k in r.graph.values && t in r.graph.values[k]
      ensures IsBuiltIn(t) || t in r.graph.values
    {
      if k == moduleID {
        assert r.graph.values[k] == s.graph.values[k] + [target];
        if t != target {
          assert t in s.graph.values[k];
        }
      } else if k in s.graph.values {
        assert r.graph.values[k] == p.graph.values[k] == s.graph.values[k];
      }
    }
  }

  lemma ClosedAfterDepStep(env: TraceEnv, s: TraceState, moduleID: string, dep: string)
    requires Wf(s) && moduleID in s.graph.values && moduleID !in s.visitQueue && Closed(s)
    ensures Closed(DepStep(env, s, moduleID, dep))
  {
    if IsBuiltIn(dep) {
      var r := Push(s, moduleID, dep);
      forall k, t | k in r.graph.values && t in r.graph.values[k]
        ensures IsBuiltIn(t) || t in r.graph.values
      {
        if k == moduleID && t != dep {
          assert t in s.graph.values[k];
        }
      }
    } else {
      var result := env.resolver(dep, moduleID);
      var s1 := if result.moduleID != "" then Link(env, s, moduleID, result.moduleID, result.modulePath, moduleID)
                else s;
      if result.moduleID != "" {
        ClosedAfterLink(env, s, moduleID, result.moduleID, result.modulePath, moduleID);
      }
      if result.pluginID != "" {
        ClosedAfterLink(env, s1, moduleID, result.pluginID, result.pluginPath, result.moduleID);
      }
      assert DepStep(env, s, moduleID, dep) == ResolvedDepStep(env, s, moduleID, result);
    }
  }

  lemma {:induction false} ClosedAfterMixinSteps(env: TraceEnv, s: TraceState, moduleID: string, mixins: seq<string>)
    requires Wf(s) && moduleID in s.graph.values && moduleID !in s.visitQueue && Closed(s)
    ensures Closed(MixinSteps(env, s, moduleID, mixins))
  {
    if |mixins| > 0 {
      var init := mixins[..|mixins| - 1];
      ClosedAfterMixinSteps(env, s, moduleID, init);
      var resolvedMixin := env.resolver(mixins[|mixins| - 1], "");
      ClosedAfterLink(env, MixinSteps(env, s, moduleID, init), moduleID, resolvedMixin.moduleID,
                      resolvedMixin.modulePath, MIXIN_ISSUER);
    }
  }

  lemma {:induction false} ClosedAfterDepSteps(env: TraceEnv, s: TraceState, moduleID: string, deps: seq<string>)
    requires Wf(s) && moduleID in s.graph.values && moduleID !in s.visitQueue && Closed(s)
    ensures Closed(DepSteps(env, s, moduleID, deps))
  {
    if |deps| > 0 {
      var init := deps[..|deps| - 1];
      ClosedAfterDepSteps(env, s, moduleID, init);
      ClosedAfterDepStep(env, DepSteps(env, s, moduleID, init), moduleID, deps[|deps| - 1]);
    }
  }

  lemma ClosedAfterVisit(env: TraceEnv, s: TraceState)
    requires ConfigValid(env.requireConfig) && Wf(s) && |s.visitQueue| > 0 && Closed(s)
    ensures Visit(env, s).Ok? ==> Closed(Visit(env, s).value)
  {
    var moduleID := s.visitQueue[0];
    var s0 := s.(visitQueue := s.visitQueue[1..]);
    var entry := s.moduleCache[moduleID];
    assert Wf(s0) && moduleID !in s0.visitQueue by {
      assert forall i :: 0 <= i < |s0.visitQueue| ==> s0.visitQueue[i] == s.visitQueue[i + 1];
    }
    if entry.path in env.files {
      var parsed := JsDeps.JavaScriptDeps(env.parsers, env.files[entry.path], false);
      if parsed.Ok? {
        var mixins := ResolvedMixinIDs(env, moduleID);
        ClosedAfterMixinSteps(env, s0, moduleID, mixins);
        ClosedAfterDepSteps(env, MixinSteps(env, s0, moduleID, mixins), moduleID, parsed.value.deps);
      }
    }
  }

  lemma {:induction false} ClosedAfterRun(env: TraceEnv, s: TraceState, universe: set<string>)
    requires ConfigValid(env.requireConfig)
    requires Wf(s) && Bounded(env.resolver, universe) && s.graph.values.Keys <= universe
    requires Closed(s)
    ensures Run(env, s, universe).Ok? ==> Closed(Run(env, s, universe).value)
    decreases Potential(s, universe)
  {
    if |s.visitQueue| > 0 {
      ClosedAfterVisit(env, s);
      var v := Visit(env, s);
      if v.Ok? {
        VisitLowersPotential(env, s, universe);
        ClosedAfterRun(env, v.value, universe);
      }
    }
  }

  lemma {:induction false} SeedFacts(env: TraceEnv, entryModuleIDs: seq<string>)
    ensures var s := Seed(env, entryModuleIDs);
            && Closed(s)
            && s.resolvedEntryIDs == EntryIDs(env, entryModuleIDs)
            && forall id :: id in s.resolvedEntryIDs ==> id in s.graph.values
  {
    if |entryModuleIDs| > 0 {
      var init := entryModuleIDs[..|entryModuleIDs| - 1];
      var entryID := entryModuleIDs[|entryModuleIDs| - 1];
      SeedFacts(env, init);
      var s := Seed(env, init);
      var resolved := env.resolver(entryID, "");
      var s1 := s.(resolvedEntryIDs := s.resolvedEntryIDs + [resolved.moduleID]);
      ClosedAfterEnqueue(env, s1, resolved.moduleID, resolved.modulePath, ENTRY_POINT_ISSUER);
      var s2 := Enqueue(env, s1, resolved.moduleID, resolved.modulePath, ENTRY_POINT_ISSUER);
      if resolved.pluginID != "" {
        ClosedAfterEnqueue(env, s2, resolved.pluginID, resolved.pluginPath, resolved.moduleID);
      }
      assert EntryIDs(env, entryModuleIDs) == EntryIDs(env, init) + [resolved.moduleID];
    }
  }

  /** The resolver's module ID of each entry, in entry order. */
  function EntryIDs(env: TraceEnv, entryModuleIDs: seq<string>): (ids: seq<string>)
    ensures |ids| == |entryModuleIDs|
    ensures forall i :: 0 <= i < |ids| ==> ids[i] == env.resolver(entryModuleIDs[i], "").moduleID
  {
    if |entryModuleIDs| == 0 then []
    else EntryIDs(env, entryModuleIDs[..|entryModuleIDs| - 1]) + [env.resolver(entryModuleIDs[|entryModuleIDs| - 1], "").moduleID]
  }

  /** What a finished walk promises: one resolved ID per entry, in entry
      order, each a key (even when empty or unreadable); every edge leads to
      a built-in or a key; nothing is left queued. */
  lemma TraceResultFacts(env: TraceEnv, entryModuleIDs: seq<string>, universe: set<string>)
    requires ConfigValid(env.requireConfig) && Bounded(env.resolver, universe)
    requires Trace(env, entryModuleIDs, universe).Ok?
    ensures var result := Trace(env, entryModuleIDs, universe).value;
            && result.graph.Valid()
            && |result.resolvedEntryIDs| == |entryModuleIDs|
            && (forall i :: 0 <= i < |entryModuleIDs| ==>
                  result.resolvedEntryIDs[i] == env.resolver(entryModuleIDs[i], "").moduleID
                  && result.resolvedEntryIDs[i] in result.graph.values)
            && (forall k, t :: k in result.graph.values && t in result.graph.values[k] ==>
                  IsBuiltIn(t) || t in result.graph.values)
  {
    SeedFacts(env, entryModuleIDs);
    SeedWithin(env, entryModuleIDs, universe);
    var seeded := Seed(env, entryModuleIDs);
    ClosedAfterRun(env, seeded, universe);
    var s := Run(env, seeded, universe).value;
    assert Closed(s);
    forall i | 0 <= i < |entryModuleIDs|
      ensures s.resolvedEntryIDs[i] in s.graph.values
    {
      assert seeded.resolvedEntryIDs[i] in seeded.resolvedEntryIDs;
    }
  }

  // ---------------------------------------------------------------------
  // The walk as the source runs it
  // ---------------------------------------------------------------------

  /** The state traceAMDDependencies keeps in its local variables while it
      walks: each method is one of its steps, proved to be the matching
      step function above. */
  class DependencyTracer {
    const env: TraceEnv
    var graph: Record<seq<string>>
    var visitQueue: seq<string>
    var moduleCache: map<string, CacheEntry>
    var warnings: seq<UnreadableDependencyWarning>
    var resolvedEntryIDs: seq<string>

    function State(): TraceState
      reads this
    {
      TraceState(graph, visitQueue, moduleCache, warnings, resolvedEntryIDs)
    }

    constructor(env: TraceEnv)
      ensures this.env == env && State() == INITIAL_STATE
    {
      this.env := env;
      graph := Empty();
      visitQueue := [];
      moduleCache := map[];
      warnings := [];
      resolvedEntryIDs := [];
    }

    /** queueDependency */
    method QueueDependency(moduleID: string, modulePath: string, issuer: string)
      requires Wf(State())
      modifies this
      ensures State() == Enqueue(env, old(State()), moduleID, modulePath, issuer)
    {
      if moduleID in graph.values {
        return;
      }
      var path := Paths.Join(env.baseDir, modulePath);
      var queued := IsJsExtension(Paths.Extname(path));
      AddModuleToGraph(moduleID, path, issuer, queued);
    }

    /** `graph[moduleID] = []`, then, for a script, the push onto the queue
        and the cache entry. */
    method AddModuleToGraph(moduleID: string, path: string, issuer: string, queued: bool)
      requires Wf(State()) && moduleID !in graph.values
      modifies this
      ensures State() == AddModule(old(State()), moduleID, path, issuer, queued)
    {
      graph := ImmutAddProp(graph, moduleID, []);
      if queued {
        visitQueue := visitQueue + [moduleID];
        moduleCache := moduleCache[moduleID := CacheEntry(path, issuer)];
      }
    }

    /** `graph[moduleID].push(target)` */
    method AddEdge(moduleID: string, target: string)
      requires Wf(State()) && moduleID in graph.values && moduleID !in visitQueue
      modifies this
      ensures State() == Push(old(State()), moduleID, target)
    {
      graph := ImmutAddProp(graph, moduleID, graph.values[moduleID] + [target]);
    }

    /** One round of the breadth-first loop: the head of the queue is read
        and its edges added. A parse error is returned, and ends the walk. */
    method VisitNext() returns (failure: Option<string>)
      requires ConfigValid(env.requireConfig) && Wf(State()) && |visitQueue| > 0
      modifies this
      ensures Visit(env, old(State())).Err? ==> failure == Some(Visit(env, old(State())).error)
      ensures Visit(env, old(State())).Ok? ==> failure.None? && State() == Visit(env, old(State())).value
    {
      ghost var s := State();
      var moduleID := visitQueue[0];
      visitQueue := visitQueue[1..];
      ghost var s0 := State();
      assert Wf(s0) && moduleID !in s0.visitQueue by {
        assert forall i :: 0 <= i < |s0.visitQueue| ==> s0.visitQueue[i] == s.visitQueue[i + 1];
      }
      var entry := moduleCache[moduleID];
      if entry.path !in env.files {
        warnings := warnings + [UnreadableDependencyWarning(moduleID, entry.path, entry.issuer)];
        return None;
      }
      var parsed := JsDeps.ParseJavaScriptDeps(env.parsers, env.files[entry.path], false);
      if parsed.Err? {
        return Some(parsed.error);
      }
      var discovered := Mixins.GetMixinsForModule(moduleID, env.requireConfig);
      var mixins := seq(|discovered|, i requires 0 <= i < |discovered| => env.resolver(discovered[i], "").moduleID);
      assert mixins == ResolvedMixinIDs(env, moduleID);
      VisitMixins(moduleID, mixins);
      ghost var s1 := State();
      VisitDeps(moduleID, parsed.value.deps);
      assert State() == DepSteps(env, s1, moduleID, parsed.value.deps);
      return None;
    }

    /** `mixins.forEach(...)`: an edge to each mixin, resolved once more,
        which is then queued. */
    method VisitMixins(moduleID: string, mixins: seq<string>)
      requires Wf(State()) && moduleID in graph.values && moduleID !in visitQueue
      modifies this
      ensures State() == MixinSteps(env, old(State()), moduleID, mixins)
    {
      ghost var s0 := State();
      var i := 0;
      while i < |mixins|
        invariant 0 <= i <= |mixins|
        invariant State() == MixinSteps(env, s0, moduleID, mixins[..i])
      {
        VisitMixin(moduleID, mixins[i]);
        MixinStepsPrefix(env, s0, moduleID, mixins, i);
        i := i + 1;
      }
      assert mixins[..i] == mixins;
    }

    /** The breadth-first loop: modules are read in queue order until the
        queue is empty, or a source fails to parse. */
    method VisitAll(ghost universe: set<string>) returns (failure: Option<string>)
      requires ConfigValid(env.requireConfig) && Wf(State())
      requires Bounded(env.resolver, universe) && graph.values.Keys <= universe
      modifies this
      ensures Run(env, old(State()), universe).Err? ==> failure == Some(Run(env, old(State()), universe).error)
      ensures Run(env, old(State()), universe).Ok? ==> failure.None? && State() == Run(env, old(State()), universe).value
    {
      ghost var start := State();
      while |visitQueue| > 0
        invariant Wf(State()) && graph.values.Keys <= universe
        invariant Run(env, State(), universe) == Run(env, start, universe)
        decreases Potential(State(), universe)
      {
        ghost var before := State();
        VisitLowersPotential(env, before, universe);
        failure := VisitNext();
        if failure.Some? {
          assert Run(env, before, universe) == Err(failure.value);
          return;
        }
        assert Run(env, before, universe) == Run(env, State(), universe);
      }
      return None;
    }

    /** One mixin: an edge to it, resolved once more, and then queued. */
    method VisitMixin(moduleID: string, mixin: string)
      requires Wf(State()) && moduleID in graph.values && moduleID !in visitQueue
      modifies this
      ensures State() == MixinStep(env, old(State()), moduleID, mixin)
    {
      var resolvedMixin := env.resolver(mixin, "");
      AddEdge(moduleID, resolvedMixin.moduleID);
      QueueDependency(resolvedMixin.moduleID, resolvedMixin.modulePath, MIXIN_ISSUER);
    }

    /** Seeding with one entry: `resolvedEntryIDs.push(...)`, then the
        module and its plugin are queued. */
    method AddEntry(entryID: string)
      requires Wf(State())
      modifies this
      ensures State() == SeedEntry(env, old(State()), entryID)
    {
      var resolved := env.resolver(entryID, "");
      resolvedEntryIDs := resolvedEntryIDs + [resolved.moduleID];
      QueueDependency(resolved.moduleID, resolved.modulePath, ENTRY_POINT_ISSUER);
      if resolved.pluginID != "" {
        QueueDependency(resolved.pluginID, resolved.pluginPath, resolved.moduleID);
      }
    }

    /** `deps.forEach(...)` */
    method VisitDeps(moduleID: string, deps: seq<string>)
      requires Wf(State()) && moduleID in graph.values && moduleID !in visitQueue
      modifies this
      ensures State() == DepSteps(env, old(State()), moduleID, deps)
    {
      ghost var s0 := State();
      var i := 0;
      while i < |deps|
        invariant 0 <= i <= |deps|
        invariant State() == DepSteps(env, s0, moduleID, deps[..i])
      {
        VisitDep(moduleID, deps[i]);
        DepStepsPrefix(env, s0, moduleID, deps, i);
        i := i + 1;
      }
      assert deps[..i] == deps;
    }

    /** One dependency: a built-in is only an edge; otherwise the resolved
        module, when not empty, and the plugin, when there is one. */
    method VisitDep(moduleID: string, dep: string)
      requires Wf(State()) && moduleID in graph.values && moduleID !in visitQueue
      modifies this
      ensures State() == DepStep(env, old(State()), moduleID, dep)
    {
      if dep in REQUIRE_BUILT_INS {
        AddEdge(moduleID, dep);
        return;
      }
      ghost var s0 := State();
      var result := env.resolver(dep, moduleID);
      if result.moduleID != "" {
        AddEdge(moduleID, result.moduleID);
        QueueDependency(result.moduleID, result.modulePath, moduleID);
      }
      ghost var s1 := State();
      assert s1 == if result.moduleID != "" then Link(env, s0, moduleID, result.moduleID, result.modulePath, moduleID)
                   else s0;
      if result.pluginID != "" {
        AddEdge(moduleID, result.pluginID);
        QueueDependency(result.pluginID, result.pluginPath, result.moduleID);
      }
      assert State() == ResolvedDepStep(env, s0, moduleID, result);
    }
  }

  /** traceAMDDependencies: seeds the walk with every entry, then reads
      modules in queue order until the queue is empty or a source fails to
      parse. `universe` bounds the modules the resolver can name, so the
      walk ends. */
  method TraceAMDDependencies(entryModuleIDs: seq<string>, env: TraceEnv, ghost universe: set<string>)
    returns (r: Result<TraceResult>)
    requires ConfigValid(env.requireConfig) && Bounded(env.resolver, universe)
    ensures r == Trace(env, entryModuleIDs, universe)
  {
    var tracer := new DependencyTracer(env);
    var i := 0;
    while i < |entryModuleIDs|
      invariant 0 <= i <= |entryModuleIDs|
      invariant tracer.State() == Seed(env, entryModuleIDs[..i])
    {
      tracer.AddEntry(entryModuleIDs[i]);
      SeedPrefix(env, entryModuleIDs, i);
      i := i + 1;
    }
    assert entryModuleIDs[..i] == entryModuleIDs;
    SeedWithin(env, entryModuleIDs, universe);
    var failure := tracer.VisitAll(universe);
    if failure.Some? {
      return Err(failure.value);
    }
    return Ok(TraceResult(tracer.graph, tracer.warnings, tracer.resolvedEntryIDs));
  }
}
