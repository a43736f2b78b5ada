/** createDependencyGraph.ts: a graph of PHTML and AMD dependencies that is
    built by adding one node at a time, and its DOT rendering. */
module DependencyGraphs {
  import opened Wrappers
  import opened Strings
  import opened Records
  import DotGraph

  /** What a node of the graph stands for. */
  datatype Dependency =
    | PHTMLDependency(pathFromStoreRoot: string)
    | AMDDependency(requireID: string)

  /** The three fields of a `DependencyGraph`, as a value. */
  datatype GraphState = GraphState(
    graph: Record<seq<string>>,
    dependencies: Record<Dependency>,
    entries: seq<string>)
  {
    /** `graph` and `dependencies` have the same keys in the same order, and
        the entry points are distinct nodes of the graph. */
    predicate Wf()
    {
      && graph.Valid()
      && dependencies.Valid()
      && graph.keys == dependencies.keys
      && NoDuplicates(entries)
      && (forall e :: e in entries ==> e in graph.values)
    }

    /** `hasDep(key)` */
    predicate HasDep(key: string)
    {
      key in dependencies.values
    }
  }

  /** A freshly created graph. */
  const EMPTY_GRAPH: GraphState := GraphState(Empty(), Empty(), [])

  function PHTMLAlreadyAdded(path: string): string
  {
    "PHTML Dependency \"" + path + "\" was already added to the graph"
  }

  function AMDAlreadyAdded(requireID: string): string
  {
    "AMD Dependency \"" + requireID + "\" was already added to the graph"
  }

  /** `addPHTMLDependency({path, deps})`: a PHTML file is always an entry
      point. Adding a node twice is an error. */
  function AddPHTML(s: GraphState, path: string, deps: seq<string>): (r: Result<GraphState>)
    requires s.Wf()
    ensures r.Err? <==> s.HasDep(path)
    ensures r.Err? ==> r.error == PHTMLAlreadyAdded(path)
    ensures r.Ok? ==> r.value.Wf() && r.value.HasDep(path) && path in r.value.entries
  {
    if s.HasDep(path) then Err(PHTMLAlreadyAdded(path))
    else
      Ok(GraphState(
        ImmutAddProp(s.graph, path, deps),
        ImmutAddProp(s.dependencies, path, PHTMLDependency(path)),
        s.entries + [path]))
  }

  /** `addAMDDependency({requireID, deps, isEntry})`: the module is an entry
      point only when `isEntry` is set. Adding a node twice is an error. */
  function AddAMD(s: GraphState, requireID: string, deps: seq<string>, isEntry: bool): (r: Result<GraphState>)
    requires s.Wf()
    ensures r.Err? <==> s.HasDep(requireID)
    ensures r.Err? ==> r.error == AMDAlreadyAdded(requireID)
    ensures r.Ok? ==> r.value.Wf() && r.value.HasDep(requireID)
    ensures r.Ok? ==> (requireID in r.value.entries <==> isEntry)
  {
    if s.HasDep(requireID) then Err(AMDAlreadyAdded(requireID))
    else
      Ok(GraphState(
        ImmutAddProp(s.graph, requireID, deps),
        ImmutAddProp(s.dependencies, requireID, AMDDependency(requireID)),
        if isEntry then s.entries + [requireID] else s.entries))
  }

  /** The DOT line that marks an entry point. */
  function EntryLine(entry: string): string
  {
    "  \"" + entry + "\" [shape=square, style=filled, fillcolor=orange]"
  }

  function EntryLines(entries: seq<string>): seq<string>
  {
    seq(|entries|, i requires 0 <= i < |entries| => EntryLine(entries[i]))
  }

  /** The lines of `toDOTGraph()`: the header, every edge, one line per entry
      point, the closing brace. */
  function DotLines(s: GraphState): seq<string>
    requires s.Wf()
  {
    [DotGraph.DIGRAPH_OPEN] + DotGraph.EdgeLinesFor(s.graph, s.graph.keys)
      + EntryLines(s.entries) + [DotGraph.DIGRAPH_CLOSE]
  }

  function DotText(s: GraphState): string
    requires s.Wf()
  {
    Join(DotLines(s), "\n")
  }

  /** A graph whose fields are replaced, never edited, by each addition. */
  class DependencyGraph {
    var graph: Record<seq<string>>
    var dependencies: Record<Dependency>
    var entries: seq<string>

    function State(): GraphState
      reads this
    {
      GraphState(graph, dependencies, entries)
    }

    predicate Valid()
      reads this
    {
      State().Wf()
    }

    /** `createDependencyGraph()` */
    constructor ()
      ensures State() == EMPTY_GRAPH && Valid()
    {
      graph := Empty();
      dependencies := Empty();
      entries := [];
    }

    /** `addPHTMLDependency`: fails, changing nothing, when the path is
        already a node. */
    method AddPHTMLDependency(path: string, deps: seq<string>) returns (r: Outcome)
      requires Valid()
      modifies this
      ensures Valid()
      ensures AddPHTML(old(State()), path, deps).Ok? ==>
                r == Pass && State() == AddPHTML(old(State()), path, deps).value
      ensures AddPHTML(old(State()), path, deps).Err? ==>
                r == Fail(PHTMLAlreadyAdded(path)) && State() == old(State())
    {
      if path in dependencies.values {
        return Fail(PHTMLAlreadyAdded(path));
      }
      graph := ImmutAddProp(graph, path, deps);
      dependencies := ImmutAddProp(dependencies, path, PHTMLDependency(path));
      entries := entries + [path];
      r := Pass;
    }

    /** `addAMDDependency`: fails, changing nothing, when the ID is already a
        node. */
    method AddAMDDependency(requireID: string, deps: seq<string>, isEntry: bool) returns (r: Outcome)
      requires Valid()
      modifies this
      ensures Valid()
      ensures AddAMD(old(State()), requireID, deps, isEntry).Ok? ==>
                r == Pass && State() == AddAMD(old(State()), requireID, deps, isEntry).value
      ensures AddAMD(old(State()), requireID, deps, isEntry).Err? ==>
                r == Fail(AMDAlreadyAdded(requireID)) && State() == old(State())
    {
      if requireID in dependencies.values {
        return Fail(AMDAlreadyAdded(requireID));
      }
      graph := ImmutAddProp(graph, requireID, deps);
      dependencies := ImmutAddProp(dependencies, requireID, AMDDependency(requireID));
      if isEntry {
        entries := entries + [requireID];
      }
      r := Pass;
    }

    /** `toDOTGraph()`: the edge lines, then the entry lines, joined. */
    method ToDOTGraph() returns (text: string)
      requires Valid()
      ensures text == DotText(State())
    {
      var lines := [DotGraph.DIGRAPH_OPEN];
      var i := 0;
      while i < |graph.keys|
        invariant 0 <= i <= |graph.keys|
        invariant lines == [DotGraph.DIGRAPH_OPEN] + DotGraph.EdgeLinesFor(graph, graph.keys[..i])
      {
        var id := graph.keys[i];
        var deps := graph.values[id];
        var j := 0;
        while j < |deps|
          invariant 0 <= j <= |deps|
          invariant lines == [DotGraph.DIGRAPH_OPEN] + DotGraph.EdgeLinesFor(graph, graph.keys[..i])
                             + DotGraph.EdgeLinesOf(id, deps[..j])
        {
          assert DotGraph.EdgeLinesOf(id, deps[..j + 1])
              == DotGraph.EdgeLinesOf(id, deps[..j]) + [DotGraph.EdgeLine(id, deps[j])];
          lines := lines + [DotGraph.EdgeLine(id, deps[j])];
          j := j + 1;
        }
        assert deps[..j] == deps;
        assert graph.keys[..i + 1][..i] == graph.keys[..i];
        assert DotGraph.EdgeLinesFor(graph, graph.keys[..i + 1])
            == DotGraph.EdgeLinesFor(graph, graph.keys[..i]) + DotGraph.EdgeLinesOf(id, deps);
        i := i + 1;
      }
      assert graph.keys[..i] == graph.keys;
      ghost var edges := lines;
      var k := 0;
      while k < |entries|
        invariant 0 <= k <= |entries|
        invariant lines == edges + EntryLines(entries[..k])
      {
        assert EntryLines(entries[..k + 1]) == EntryLines(entries[..k]) + [EntryLine(entries[k])];
        lines := lines + [EntryLine(entries[k])];
        k := k + 1;
      }
      assert entries[..k] == entries;
      lines := lines + [DotGraph.DIGRAPH_CLOSE];
      text := Join(lines, "\n");
    }
  }

  /** A node added once cannot be added again, as either kind. */
  lemma AddedNodeIsTaken(s: GraphState, key: string, deps: seq<string>, isEntry: bool,
                         deps2: seq<string>, isEntry2: bool)
    requires s.Wf()
    ensures AddPHTML(s, key, deps).Ok? ==>
              AddPHTML(AddPHTML(s, key, deps).value, key, deps2).Err? &&
              AddAMD(AddPHTML(s, key, deps).value, key, deps2, isEntry2).Err?
    ensures AddAMD(s, key, deps, isEntry).Ok? ==>
              AddPHTML(AddAMD(s, key, deps, isEntry).value, key, deps2).Err? &&
              AddAMD(AddAMD(s, key, deps, isEntry).value, key, deps2, isEntry2).Err?
  {
  }

  /** An addition binds the new node to its deps, appends it to the key order
      of both records and leaves every other node's deps as they were. */
  lemma AddKeepsOtherNodes(s: GraphState, key: string, deps: seq<string>, isEntry: bool, other: string)
    requires s.Wf()
    requires other != key
    ensures AddAMD(s, key, deps, isEntry).Ok? ==>
              var t := AddAMD(s, key, deps, isEntry).value;
              && t.graph.values[key] == deps
              && t.graph.keys == s.graph.keys + [key]
              && t.dependencies.keys == s.dependencies.keys + [key]
              && (other in t.graph.values <==> other in s.graph.values)
              && (other in s.graph.values ==> t.graph.values[other] == s.graph.values[other])
              && (other in t.entries <==> other in s.entries)
    ensures AddPHTML(s, key, deps).Ok? ==>
              var t := AddPHTML(s, key, deps).value;
              && t.graph.values[key] == deps
              && t.graph.keys == s.graph.keys + [key]
              && t.dependencies.keys == s.dependencies.keys + [key]
              && (other in t.graph.values <==> other in s.graph.values)
              && (other in s.graph.values ==> t.graph.values[other] == s.graph.values[other])
              && (other in t.entries <==> other in s.entries)
  {
  }

  /** Without entry points the DOT text is exactly what `generateDotGraph`
      gives for the same adjacency record. */
  lemma NoEntriesIsPlainDot(s: GraphState)
    requires s.Wf() && s.entries == []
    ensures DotText(s) == DotGraph.DotText(s.graph)
  {
    assert EntryLines(s.entries) == [];
    assert DotLines(s) == DotGraph.DotLines(s.graph);
  }

  /** The DOT lines number two more than the edges and entry points together. */
  lemma DotLineCount(s: GraphState)
    requires s.Wf()
    ensures |DotLines(s)| == 2 + DotGraph.EdgeCount(s.graph, s.graph.keys) + |s.entries|
  {
    DotGraph.EdgeLinesCount(s.graph, s.graph.keys);
  }

  /** In a well-formed graph the nodes are exactly the listed keys. */
  lemma NodesAreKeys(s: GraphState)
    requires s.Wf()
    ensures forall k :: s.HasDep(k) <==> k in s.graph.keys
  {
  }

  /** One addition of a fresh node, in terms of the record contents. */
  lemma AddFresh(s: GraphState, id: string, deps: seq<string>, isEntry: bool, phtml: bool)
    requires s.Wf() && !s.HasDep(id)
    ensures var r := if phtml then AddPHTML(s, id, deps) else AddAMD(s, id, deps, isEntry);
      && r.Ok?
      && r.value.graph.keys == s.graph.keys + [id]
      && r.value.graph.values == s.graph.values[id := deps]
      && r.value.entries == (if phtml || isEntry then s.entries + [id] else s.entries)
  {
  }

  /** Two additions of fresh, distinct nodes: an AMD module that is not an
      entry point, then a PHTML file. */
  lemma AddModuleThenFile(s: GraphState, c: string, dc: seq<string>, p: string, dp: seq<string>)
    returns (t3: GraphState, t4: GraphState)
    requires s.Wf() && c !in s.graph.keys && p !in s.graph.keys && c != p
    ensures AddAMD(s, c, dc, false) == Ok(t3) && t3.Wf()
    ensures AddPHTML(t3, p, dp) == Ok(t4)
    ensures t4.graph.keys == s.graph.keys + [c, p] && t4.entries == s.entries + [p]
  {
    NodesAreKeys(s);
    AddFresh(s, c, dc, false, false);
    t3 := AddAMD(s, c, dc, false).value;
    NodesAreKeys(t3);
    AddFresh(t3, p, dp, false, true);
    t4 := AddPHTML(t3, p, dp).value;
  }

  /** Two additions to an empty graph: an AMD entry point, then another AMD
      module. */
  lemma AddEntryThenModule(a: string, da: seq<string>, b: string, db: seq<string>)
    returns (t1: GraphState, t2: GraphState)
    requires a != b
    ensures AddAMD(EMPTY_GRAPH, a, da, true) == Ok(t1) && t1.Wf()
    ensures AddAMD(t1, b, db, false) == Ok(t2) && t2.Wf()
    ensures t2.graph.keys == [a, b] && t2.entries == [a]
  {
    AddFresh(EMPTY_GRAPH, a, da, true, false);
    t1 := AddAMD(EMPTY_GRAPH, a, da, true).value;
    NodesAreKeys(t1);
    AddFresh(t1, b, db, false, false);
    t2 := AddAMD(t1, b, db, false).value;
  }

  /** Four additions of distinct nodes (three AMD modules, the first an entry
      point, then a PHTML file) all succeed; the nodes keep the order of
      addition and the entry points are the first module and the file. */
  lemma DistinctAdditions(a: string, b: string, c: string, p: string,
                          da: seq<string>, db: seq<string>, dc: seq<string>, dp: seq<string>)
    returns (t1: GraphState, t2: GraphState, t3: GraphState, t4: GraphState)
    requires a != b && a != c && a != p && b != c && b != p && c != p
    ensures AddAMD(EMPTY_GRAPH, a, da, true) == Ok(t1) && t1.Wf()
    ensures AddAMD(t1, b, db, false) == Ok(t2) && t2.Wf()
    ensures AddAMD(t2, c, dc, false) == Ok(t3) && t3.Wf()
    ensures AddPHTML(t3, p, dp) == Ok(t4)
    ensures t4.graph.keys == [a, b, c, p] && t4.entries == [a, p]
  {
    t1, t2 := AddEntryThenModule(a, da, b, db);
    t3, t4 := AddModuleThenFile(t2, c, dc, p, dp);
    FourInOrder(a, b, c, p);
  }

  lemma FourInOrder(a: string, b: string, c: string, p: string)
    ensures [a, b] + [c, p] == [a, b, c, p] && [a] + [p] == [a, p]
  {
  }

  /** The kitchen-sink sequence: AMD `mage/bootstrap` (an entry), `jquery`,
      `mage/apply/main`, then a PHTML file. */
  lemma KitchenSink()
    ensures
      var phtml := "vendor/magento/module-bar/foo.phtml";
      var s1 := AddAMD(EMPTY_GRAPH, "mage/bootstrap",
                       ["jquery", "mage/apply/main", "Magento_Ui/js/lib/knockout/bootstrap"], true);
      s1.Ok? &&
      var s2 := AddAMD(s1.value, "jquery", [], false);
      s2.Ok? &&
      var s3 := AddAMD(s2.value, "mage/apply/main", ["underscore", "jquery"], false);
      s3.Ok? &&
      var s4 := AddPHTML(s3.value, phtml, ["jquery"]);
      s4.Ok? &&
      s4.value.graph.keys == ["mage/bootstrap", "jquery", "mage/apply/main", phtml] &&
      s4.value.entries == ["mage/bootstrap", phtml]
  {
    var _, _, _, _ := DistinctAdditions("mage/bootstrap", "jquery", "mage/apply/main", "vendor/magento/module-bar/foo.phtml",
                      ["jquery", "mage/apply/main", "Magento_Ui/js/lib/knockout/bootstrap"], [],
                      ["underscore", "jquery"], ["jquery"]);
  }

  /** A graph with one PHTML file and two edges: the file is drawn as an
      entry point. */
  lemma SinglePHTMLDot(id: string, d1: string, d2: string)
    ensures AddPHTML(EMPTY_GRAPH, id, [d1, d2]).Ok?
    ensures DotLines(AddPHTML(EMPTY_GRAPH, id, [d1, d2]).value)
         == [DotGraph.DIGRAPH_OPEN, DotGraph.EdgeLine(id, d1), DotGraph.EdgeLine(id, d2),
             EntryLine(id), DotGraph.DIGRAPH_CLOSE]
  {
    AddFresh(EMPTY_GRAPH, id, [d1, d2], false, true);
    var t := AddPHTML(EMPTY_GRAPH, id, [d1, d2]).value;
    assert [id][..0] == [];
    assert DotGraph.EdgeLinesFor(t.graph, [id]) == [DotGraph.EdgeLine(id, d1), DotGraph.EdgeLine(id, d2)];
    assert EntryLines([id]) == [EntryLine(id)];
  }

  /** A graph with one AMD module added without `isEntry` and two edges: no
      entry-point line. */
  lemma SingleAMDDot(id: string, d1: string, d2: string)
    ensures AddAMD(EMPTY_GRAPH, id, [d1, d2], false).Ok?
    ensures DotLines(AddAMD(EMPTY_GRAPH, id, [d1, d2], false).value)
         == [DotGraph.DIGRAPH_OPEN, DotGraph.EdgeLine(id, d1), DotGraph.EdgeLine(id, d2),
             DotGraph.DIGRAPH_CLOSE]
  {
    AddFresh(EMPTY_GRAPH, id, [d1, d2], false, false);
    var u := AddAMD(EMPTY_GRAPH, id, [d1, d2], false).value;
    assert [id][..0] == [];
    assert DotGraph.EdgeLinesFor(u.graph, [id]) == [DotGraph.EdgeLine(id, d1), DotGraph.EdgeLine(id, d2)];
    assert EntryLines([]) == [];
  }
}
