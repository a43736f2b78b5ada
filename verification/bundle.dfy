/** computeDepsForBundle (computeDepsForBundle.ts): the modules of a bundle,
    in the order the AMD runtime runs them, from a traced graph and an ordered
    list of entry points. */
module Bundle {
  import opened Strings
  import opened Records
  import opened ModuleIds

  /** Every ID some adjacency list names. */
  ghost function Targets(graph: Record<seq<string>>): set<string>
  {
    set k, d | k in graph.values && d in graph.values[k] :: d
  }

  function Elems(xs: seq<string>): set<string>
  {
    set x | x in xs
  }

  /** `graph[dep]`, a missing key having no dependencies. */
  function DirectDeps(graph: Record<seq<string>>, dep: string): (direct: seq<string>)
    ensures Elems(direct) <= Targets(graph)
  {
    if dep in graph.values then
      var direct := graph.values[dep];
      assert forall d :: d in direct ==> d in Targets(graph);
      direct
    else []
  }

  /** Modules not yet bundled that the walk may still meet; bundling one
      lowers it, and skipping an item of the stack leaves it as it is. */
  ghost function Unbundled(graph: Record<seq<string>>, toVisit: seq<string>, bundled: seq<string>): nat
  {
    |(Targets(graph) + Elems(toVisit)) - Elems(bundled)|
  }

  lemma ElemsConcat(a: seq<string>, b: seq<string>)
    ensures Elems(a + b) == Elems(a) + Elems(b)
  {
    assert forall x :: x in a + b <==> x in a || x in b;
  }

  lemma ElemsSplit(xs: seq<string>)
    requires |xs| > 0
    ensures Elems(xs) == {xs[0]} + Elems(xs[1..])
    ensures forall x :: x in xs <==> x == xs[0] || x in xs[1..]
  {
    assert xs == [xs[0]] + xs[1..];
    ElemsConcat([xs[0]], xs[1..]);
  }

  lemma {:induction false} SubsetCardinality(a: set<string>, b: set<string>)
    requires a <= b
    ensures |a| <= |b|
  {
    if a != {} {
      var x :| x in a;
      SubsetCardinality(a - {x}, b - {x});
    }
  }

  lemma SkipKeepsUnbundled(graph: Record<seq<string>>, toVisit: seq<string>, bundled: seq<string>)
    requires |toVisit| > 0
    ensures Unbundled(graph, toVisit[1..], bundled) <= Unbundled(graph, toVisit, bundled)
  {
    ElemsSplit(toVisit);
    SubsetCardinality((Targets(graph) + Elems(toVisit[1..])) - Elems(bundled),
                      (Targets(graph) + Elems(toVisit)) - Elems(bundled));
  }

  lemma BundleLowersUnbundled(graph: Record<seq<string>>, toVisit: seq<string>, bundled: seq<string>)
    requires |toVisit| > 0 && toVisit[0] !in bundled
    ensures Unbundled(graph, DirectDeps(graph, toVisit[0]) + toVisit[1..], bundled + [toVisit[0]])
            < Unbundled(graph, toVisit, bundled)
  {
    var dep := toVisit[0];
    var targets := Targets(graph);
    var before := (targets + Elems(toVisit)) - Elems(bundled);
    var direct := DirectDeps(graph, dep);
    var after := (targets + Elems(direct + toVisit[1..])) - Elems(bundled + [dep]);
    ElemsSplit(toVisit);
    ElemsConcat(direct, toVisit[1..]);
    ElemsConcat(bundled, [dep]);
    assert Elems([dep]) == {dep};
    assert after <= before - {dep};
    SubsetCardinality(after, before - {dep});
  }

  /** The depth-first walk: the first item of the stack is skipped when it is
      bundled already or a require built-in; otherwise it is bundled and its
      direct dependencies go on top of the stack, in their order. */
  function Walk(graph: Record<seq<string>>, toVisit: seq<string>, bundled: seq<string>): seq<string>
    decreases Unbundled(graph, toVisit, bundled), |toVisit|
  {
    if |toVisit| == 0 then bundled
    else
      var dep := toVisit[0];
      if dep in bundled || IsBuiltIn(dep) then
        SkipKeepsUnbundled(graph, toVisit, bundled);
        Walk(graph, toVisit[1..], bundled)
      else
        BundleLowersUnbundled(graph, toVisit, bundled);
        Walk(graph, DirectDeps(graph, dep) + toVisit[1..], bundled + [dep])
  }

  /** What computeDepsForBundle returns. */
  function DepsForBundle(graph: Record<seq<string>>, entryPoints: seq<string>): seq<string>
  {
    Walk(graph, entryPoints, [])
  }

  /** computeDepsForBundle: `toVisit` is a copy of the entry points, used as
      a stack with `shift` and `unshift`; `depsToBundle` keeps insertion
      order. The entry points array is only read. */
  method ComputeDepsForBundle(graph: Record<seq<string>>, entryPoints: array<string>) returns (deps: seq<string>)
    ensures deps == DepsForBundle(graph, entryPoints[..])
  {
    var depsToBundle: seq<string> := [];
    var toVisit := entryPoints[..];
    while |toVisit| > 0
      invariant Walk(graph, toVisit, depsToBundle) == DepsForBundle(graph, entryPoints[..])
      decreases Unbundled(graph, toVisit, depsToBundle), |toVisit|
    {
      var dep := toVisit[0];
      if dep in depsToBundle || dep in REQUIRE_BUILT_INS {
        SkipKeepsUnbundled(graph, toVisit, depsToBundle);
        toVisit := toVisit[1..];
        continue;
      }
      BundleLowersUnbundled(graph, toVisit, depsToBundle);
      depsToBundle := depsToBundle + [dep];
      var directDeps := DirectDeps(graph, dep);
      toVisit := directDeps + toVisit[1..];
    }
    deps := depsToBundle;
  }

  // ---------------------------------------------------------------------
  // What the bundle list promises
  // ---------------------------------------------------------------------

  /** The walk only appends to what is bundled already. */
  lemma {:induction false} WalkExtends(graph: Record<seq<string>>, toVisit: seq<string>, bundled: seq<string>)
    ensures |bundled| <= |Walk(graph, toVisit, bundled)|
    ensures Walk(graph, toVisit, bundled)[..|bundled|] == bundled
    decreases Unbundled(graph, toVisit, bundled), |toVisit|
  {
    if |toVisit| > 0 {
      var dep := toVisit[0];
      if dep in bundled || IsBuiltIn(dep) {
        SkipKeepsUnbundled(graph, toVisit, bundled);
        WalkExtends(graph, toVisit[1..], bundled);
      } else {
        BundleLowersUnbundled(graph, toVisit, bundled);
        var next := bundled + [dep];
        WalkExtends(graph, DirectDeps(graph, dep) + toVisit[1..], next);
        assert next[..|bundled|] == bundled;
      }
    }
  }

  /** Nothing is bundled twice, and no require built-in is bundled. */
  lemma {:induction false} WalkDistinctNoBuiltIns(graph: Record<seq<string>>, toVisit: seq<string>, bundled: seq<string>)
    requires NoDuplicates(bundled) && forall x :: x in bundled ==> !IsBuiltIn(x)
    ensures NoDuplicates(Walk(graph, toVisit, bundled))
    ensures forall x :: x in Walk(graph, toVisit, bundled) ==> !IsBuiltIn(x)
    decreases Unbundled(graph, toVisit, bundled), |toVisit|
  {
    if |toVisit| > 0 {
      var dep := toVisit[0];
      if dep in bundled || IsBuiltIn(dep) {
        SkipKeepsUnbundled(graph, toVisit, bundled);
        WalkDistinctNoBuiltIns(graph, toVisit[1..], bundled);
      } else {
        BundleLowersUnbundled(graph, toVisit, bundled);
        var next := bundled + [dep];
        assert NoDuplicates(next) by {
          forall i, j | 0 <= i < j < |next| ensures next[i] != next[j] {
            if j == |bundled| {
              assert next[i] == bundled[i];
            }
          }
        }
        WalkDistinctNoBuiltIns(graph, DirectDeps(graph, dep) + toVisit[1..], next);
      }
    }
  }

  /** `x` is an entry point or a direct dependency of one of the first `n`
      bundled modules. */
  predicate Justified(graph: Record<seq<string>>, entryPoints: seq<string>, bundled: seq<string>, n: nat, x: string)
    requires n <= |bundled|
  {
    x in entryPoints || exists j :: 0 <= j < n && x in DirectDeps(graph, bundled[j])
  }

  /** Each bundled module is an entry point or a direct dependency of a module
      bundled before it, provided every item of the stack is an entry point
      or a direct dependency of a bundled module. */
  lemma {:induction false} WalkJustified(graph: Record<seq<string>>, entryPoints: seq<string>,
                                         toVisit: seq<string>, bundled: seq<string>)
    requires AllJustified(graph, entryPoints, bundled)
    requires forall x :: x in toVisit ==> Justified(graph, entryPoints, bundled, |bundled|, x)
    ensures AllJustified(graph, entryPoints, Walk(graph, toVisit, bundled))
    decreases Unbundled(graph, toVisit, bundled), |toVisit|
  {
    if |toVisit| > 0 {
      var dep := toVisit[0];
      ElemsSplit(toVisit);
      if dep in bundled || IsBuiltIn(dep) {
        SkipKeepsUnbundled(graph, toVisit, bundled);
        WalkJustified(graph, entryPoints, toVisit[1..], bundled);
        assert Walk(graph, toVisit, bundled) == Walk(graph, toVisit[1..], bundled);
      } else {
        BundleLowersUnbundled(graph, toVisit, bundled);
        var next := bundled + [dep];
        var stack := DirectDeps(graph, dep) + toVisit[1..];
        assert AllJustified(graph, entryPoints, next) by {
          forall i | 0 <= i < |next| ensures Justified(graph, entryPoints, next, i, next[i]) {
            if i < |bundled| {
              JustifiedExtends(graph, entryPoints, bundled, next, i, bundled[i]);
            } else {
              JustifiedExtends(graph, entryPoints, bundled, next, |bundled|, dep);
            }
          }
        }
        ElemsConcat(DirectDeps(graph, dep), toVisit[1..]);
        forall x | x in stack ensures Justified(graph, entryPoints, next, |next|, x) {
          assert x in Elems(stack);
          if x in DirectDeps(graph, dep) {
            assert next[|bundled|] == dep;
          } else {
            assert x in Elems(toVisit[1..]);
            JustifiedExtends(graph, entryPoints, bundled, next, |bundled|, x);
            JustifiedWider(graph, entryPoints, next, |bundled|, |next|, x);
          }
        }
        WalkJustified(graph, entryPoints, stack, next);
        assert Walk(graph, toVisit, bundled) == Walk(graph, stack, next);
      }
    }
  }

  /** Each module is an entry point or a direct dependency of a module
      before it. */
  predicate AllJustified(graph: Record<seq<string>>, entryPoints: seq<string>, bundled: seq<string>)
  {
    forall i :: 0 <= i < |bundled| ==> Justified(graph, entryPoints, bundled, i, bundled[i])
  }

  lemma JustifiedWider(graph: Record<seq<string>>, entryPoints: seq<string>, bundled: seq<string>,
                       n: nat, m: nat, x: string)
    requires n <= m <= |bundled|
    requires Justified(graph, entryPoints, bundled, n, x)
    ensures Justified(graph, entryPoints, bundled, m, x)
  {
  }

  lemma JustifiedExtends(graph: Record<seq<string>>, entryPoints: seq<string>, bundled: seq<string>,
                         next: seq<string>, n: nat, x: string)
    requires n <= |bundled| <= |next| && next[..|bundled|] == bundled
    requires Justified(graph, entryPoints, bundled, n, x)
    ensures Justified(graph, entryPoints, next, n, x)
  {
    if x !in entryPoints {
      var j :| 0 <= j < n && x in DirectDeps(graph, bundled[j]);
      assert next[j] == bundled[j];
    }
  }

  /** Every edge out of a bundled module leads to a built-in, to a bundled
      module or to an item still on the stack. */
  predicate Pending(graph: Record<seq<string>>, toVisit: seq<string>, bundled: seq<string>)
  {
    forall x, d :: x in bundled && d in DirectDeps(graph, x) ==> IsBuiltIn(d) || d in bundled || d in toVisit
  }

  /** Completeness: each item of the stack that is not a built-in ends up
      bundled, and the result is closed under the graph's edges. */
  lemma {:induction false} WalkComplete(graph: Record<seq<string>>, toVisit: seq<string>, bundled: seq<string>)
    requires Pending(graph, toVisit, bundled)
    ensures var r := Walk(graph, toVisit, bundled);
            && (forall x :: x in toVisit ==> IsBuiltIn(x) || x in r)
            && Pending(graph, [], r)
    decreases Unbundled(graph, toVisit, bundled), |toVisit|
  {
    if |toVisit| > 0 {
      var dep := toVisit[0];
      var rest := toVisit[1..];
      ElemsSplit(toVisit);
      if dep in bundled || IsBuiltIn(dep) {
        SkipKeepsUnbundled(graph, toVisit, bundled);
        PendingAfterSkip(graph, toVisit, bundled);
        WalkExtends(graph, rest, bundled);
        WalkComplete(graph, rest, bundled);
        var r := Walk(graph, rest, bundled);
        assert r == Walk(graph, toVisit, bundled);
        if !IsBuiltIn(dep) {
          PrefixMember(bundled, r, dep);
        }
      } else {
        BundleLowersUnbundled(graph, toVisit, bundled);
        var next := bundled + [dep];
        var stack := DirectDeps(graph, dep) + rest;
        PendingAfterBundle(graph, toVisit, bundled);
        WalkExtends(graph, stack, next);
        WalkComplete(graph, stack, next);
        var r := Walk(graph, stack, next);
        assert r == Walk(graph, toVisit, bundled);
        PrefixMember(next, r, dep);
        ElemsConcat(DirectDeps(graph, dep), rest);
        assert forall x :: x in rest ==> x in Elems(stack);
      }
    }
  }

  lemma PendingAfterSkip(graph: Record<seq<string>>, toVisit: seq<string>, bundled: seq<string>)
    requires |toVisit| > 0 && (toVisit[0] in bundled || IsBuiltIn(toVisit[0]))
    requires Pending(graph, toVisit, bundled)
    ensures Pending(graph, toVisit[1..], bundled)
  {
    ElemsSplit(toVisit);
  }

  lemma PendingAfterBundle(graph: Record<seq<string>>, toVisit: seq<string>, bundled: seq<string>)
    requires |toVisit| > 0
    requires Pending(graph, toVisit, bundled)
    ensures Pending(graph, DirectDeps(graph, toVisit[0]) + toVisit[1..], bundled + [toVisit[0]])
  {
    var dep := toVisit[0];
    var next := bundled + [dep];
    var stack := DirectDeps(graph, dep) + toVisit[1..];
    ElemsSplit(toVisit);
    ElemsConcat(DirectDeps(graph, dep), toVisit[1..]);
    forall x, d | x in next && d in DirectDeps(graph, x)
      ensures IsBuiltIn(d) || d in next || d in stack
    {
      assert d in Elems(DirectDeps(graph, x));
      if x != dep {
        assert x in bundled;
        if d in toVisit && d != dep {
          assert d in Elems(toVisit[1..]);
        }
      }
    }
  }

  lemma PrefixMember(prefix: seq<string>, s: seq<string>, x: string)
    requires |prefix| <= |s| && s[..|prefix|] == prefix && x in prefix
    ensures x in s
  {
    var i :| 0 <= i < |prefix| && prefix[i] == x;
    assert s[i] == x;
  }

  /** Depth-first order: the walk over `first + rest` bundles the whole
      subtree of `first` before anything `rest` adds. */
  lemma {:induction false} WalkSplits(graph: Record<seq<string>>, first: seq<string>, rest: seq<string>, bundled: seq<string>)
    ensures Walk(graph, first + rest, bundled) == Walk(graph, rest, Walk(graph, first, bundled))
    decreases Unbundled(graph, first + rest, bundled), |first|, 1
  {
    if |first| == 0 {
      assert first + rest == rest;
    } else if first[0] in bundled || IsBuiltIn(first[0]) {
      WalkSplitsSkip(graph, first, rest, bundled);
    } else {
      WalkSplitsBundle(graph, first, rest, bundled);
    }
  }

  lemma {:induction false} WalkSplitsSkip(graph: Record<seq<string>>, first: seq<string>, rest: seq<string>, bundled: seq<string>)
    requires |first| > 0 && (first[0] in bundled || IsBuiltIn(first[0]))
    ensures Walk(graph, first + rest, bundled) == Walk(graph, rest, Walk(graph, first, bundled))
    decreases Unbundled(graph, first + rest, bundled), |first|, 0
  {
    var stack := first + rest;
    assert stack[0] == first[0] && stack[1..] == first[1..] + rest;
    SkipKeepsUnbundled(graph, stack, bundled);
    WalkSplits(graph, first[1..], rest, bundled);
  }

  lemma {:induction false} WalkSplitsBundle(graph: Record<seq<string>>, first: seq<string>, rest: seq<string>, bundled: seq<string>)
    requires |first| > 0 && first[0] !in bundled && !IsBuiltIn(first[0])
    ensures Walk(graph, first + rest, bundled) == Walk(graph, rest, Walk(graph, first, bundled))
    decreases Unbundled(graph, first + rest, bundled), |first|, 0
  {
    var stack := first + rest;
    var dep := first[0];
    assert stack[0] == dep && stack[1..] == first[1..] + rest;
    BundleLowersUnbundled(graph, stack, bundled);
    var direct := DirectDeps(graph, dep);
    assert direct + stack[1..] == (direct + first[1..]) + rest;
    WalkSplits(graph, direct + first[1..], rest, bundled + [dep]);
  }

  /** The properties of computeDepsForBundle's result: no duplicates, no
      require built-in, each module an entry point or a direct dependency of
      a module before it, every non-built-in entry point bundled, and every
      non-built-in dependency of a bundled module bundled too (so everything
      reachable without passing a built-in, with or without a graph key). */
  lemma DepsForBundleFacts(graph: Record<seq<string>>, entryPoints: seq<string>)
    ensures var r := DepsForBundle(graph, entryPoints);
            && NoDuplicates(r)
            && (forall x :: x in r ==> !IsBuiltIn(x))
            && AllJustified(graph, entryPoints, r)
            && (forall e :: e in entryPoints ==> IsBuiltIn(e) || e in r)
            && (forall x, d :: x in r && d in DirectDeps(graph, x) ==> IsBuiltIn(d) || d in r)
  {
    WalkDistinctNoBuiltIns(graph, entryPoints, []);
    WalkJustified(graph, entryPoints, entryPoints, []);
    WalkComplete(graph, entryPoints, []);
  }

  /** Each entry point's subtree follows everything the earlier entry points
      bundled. */
  lemma EntryPointsInOrder(graph: Record<seq<string>>, entryPoints: seq<string>, entry: string)
    ensures DepsForBundle(graph, entryPoints + [entry]) == Walk(graph, [entry], DepsForBundle(graph, entryPoints))
  {
    WalkSplits(graph, entryPoints, [entry], []);
  }

  /** {a: [b], b: [c, d], c: [d], d: []} from [a] gives [a, b, c, d]. */
  lemma OneEntryNoCycles()
    ensures var graph := Record(["a", "b", "c", "d"], map["a" := ["b"], "b" := ["c", "d"], "c" := ["d"], "d" := []]);
            DepsForBundle(graph, ["a"]) == ["a", "b", "c", "d"]
  {
    var graph := Record(["a", "b", "c", "d"], map["a" := ["b"], "b" := ["c", "d"], "c" := ["d"], "d" := []]);
    BundleStep(graph, ["a"], [], ["b"], ["a"]);
    BundleStep(graph, ["b"], ["a"], ["c", "d"], ["a", "b"]);
    BundleStep(graph, ["c", "d"], ["a", "b"], ["d", "d"], ["a", "b", "c"]);
    BundleStep(graph, ["d", "d"], ["a", "b", "c"], ["d"], ["a", "b", "c", "d"]);
    SkipStep(graph, ["d"], ["a", "b", "c", "d"], []);
  }

  /** {a: [b], b: [a], c: []} from [a, c] gives [a, b, c]: the cycle is cut. */
  lemma CycleInFirstEntry()
    ensures var graph := Record(["a", "b", "c"], map["a" := ["b"], "b" := ["a"], "c" := []]);
            DepsForBundle(graph, ["a", "c"]) == ["a", "b", "c"]
  {
    var graph := Record(["a", "b", "c"], map["a" := ["b"], "b" := ["a"], "c" := []]);
    BundleStep(graph, ["a", "c"], [], ["b", "c"], ["a"]);
    BundleStep(graph, ["b", "c"], ["a"], ["a", "c"], ["a", "b"]);
    SkipStep(graph, ["a", "c"], ["a", "b"], ["c"]);
    BundleStep(graph, ["c"], ["a", "b"], [], ["a", "b", "c"]);
  }

  /** {a: [b], b: ["text!js-translation.json"]} from [a] gives
      [a, b, "text!js-translation.json"]: only built-ins are skipped. */
  lemma ExcludedFileIsBundled()
    ensures var graph := Record(["a", "b"], map["a" := ["b"], "b" := ["text!js-translation.json"]]);
            DepsForBundle(graph, ["a"]) == ["a", "b", "text!js-translation.json"]
  {
    var t := "text!js-translation.json";
    var graph := Record(["a", "b"], map["a" := ["b"], "b" := [t]]);
    BundleStep(graph, ["a"], [], ["b"], ["a"]);
    BundleStep(graph, ["b"], ["a"], [t], ["a", "b"]);
    BundleStep(graph, [t], ["a", "b"], [], ["a", "b", t]);
  }

  /** One step of the examples: the head of the stack is bundled and its
      direct dependencies stacked. */
  lemma BundleStep(graph: Record<seq<string>>, toVisit: seq<string>, bundled: seq<string>,
                   stack: seq<string>, next: seq<string>)
    requires |toVisit| > 0 && toVisit[0] !in bundled && !IsBuiltIn(toVisit[0])
    requires stack == DirectDeps(graph, toVisit[0]) + toVisit[1..] && next == bundled + [toVisit[0]]
    ensures Walk(graph, toVisit, bundled) == Walk(graph, stack, next)
  {
  }

  /** One step of the examples: the head of the stack is bundled already and
      is skipped. */
  lemma SkipStep(graph: Record<seq<string>>, toVisit: seq<string>, bundled: seq<string>, rest: seq<string>)
    requires |toVisit| > 0 && toVisit[0] in bundled && rest == toVisit[1..]
    ensures Walk(graph, toVisit, bundled) == Walk(graph, rest, bundled)
  {
  }
}
