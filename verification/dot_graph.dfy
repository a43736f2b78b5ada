/** generateDotGraph.ts: the GraphViz DOT text of an AMD dependency graph.
    The same edge lines are reused by `DependencyGraph.toDOTGraph`. */
module DotGraph {
  import opened Strings
  import opened Records

  /** An AMD graph: module ID to its dependency IDs, in insertion order. */
  type Graph = Record<seq<string>>

  const DIGRAPH_OPEN := "digraph {"
  const DIGRAPH_CLOSE := "}"

  /** `  "id" -> "d"` */
  function EdgeLine(id: string, d: string): string
  {
    "  \"" + id + "\" -> \"" + d + "\""
  }

  /** `deps.map(d => EdgeLine(id, d))` */
  function EdgeLinesOf(id: string, deps: seq<string>): seq<string>
  {
    seq(|deps|, i requires 0 <= i < |deps| => EdgeLine(id, deps[i]))
  }

  /** The edge lines of the listed keys, key after key: the lines pushed by
      the `for…of` loop over `Object.entries(graph)` after those keys. */
  function EdgeLinesFor(g: Graph, keys: seq<string>): seq<string>
    requires forall k :: k in keys ==> k in g.values
  {
    if |keys| == 0 then []
    else
      var id := keys[|keys| - 1];
      EdgeLinesFor(g, keys[..|keys| - 1]) + EdgeLinesOf(id, g.values[id])
  }

  /** The lines of the DOT text: the header, every edge, the closing brace. */
  function DotLines(g: Graph): seq<string>
    requires g.Valid()
  {
    [DIGRAPH_OPEN] + EdgeLinesFor(g, g.keys) + [DIGRAPH_CLOSE]
  }

  /** The text `generateDotGraph` returns: the lines joined with newlines. */
  function DotText(g: Graph): string
    requires g.Valid()
  {
    Join(DotLines(g), "\n")
  }

  /** Number of edges of the listed keys. */
  function EdgeCount(g: Graph, keys: seq<string>): nat
    requires forall k :: k in keys ==> k in g.values
  {
    if |keys| == 0 then 0
    else EdgeCount(g, keys[..|keys| - 1]) + |g.values[keys[|keys| - 1]]|
  }

  /** `generateDotGraph(graph)`: builds the line list with a loop, then joins it. */
  method GenerateDotGraph(g: Graph) returns (text: string)
    requires g.Valid()
    ensures text == DotText(g)
  {
    var lines := [DIGRAPH_OPEN];
    var i := 0;
    while i < |g.keys|
      invariant 0 <= i <= |g.keys|
      invariant lines == [DIGRAPH_OPEN] + EdgeLinesFor(g, g.keys[..i])
    {
      var id := g.keys[i];
      var deps := g.values[id];
      var j := 0;
      while j < |deps|
        invariant 0 <= j <= |deps|
        invariant lines == [DIGRAPH_OPEN] + EdgeLinesFor(g, g.keys[..i]) + EdgeLinesOf(id, deps[..j])
      {
        assert EdgeLinesOf(id, deps[..j + 1]) == EdgeLinesOf(id, deps[..j]) + [EdgeLine(id, deps[j])];
        lines := lines + [EdgeLine(id, deps[j])];
        j := j + 1;
      }
      assert deps[..j] == deps;
      assert g.keys[..i + 1][..i] == g.keys[..i];
      assert EdgeLinesFor(g, g.keys[..i + 1]) == EdgeLinesFor(g, g.keys[..i]) + EdgeLinesOf(id, deps);
      i := i + 1;
    }
    assert g.keys[..i] == g.keys;
    lines := lines + [DIGRAPH_CLOSE];
    text := Join(lines, "\n");
  }

  /** The edge lines of the listed keys number their edges. */
  lemma {:induction false} EdgeLinesCount(g: Graph, keys: seq<string>)
    requires forall k :: k in keys ==> k in g.values
    ensures |EdgeLinesFor(g, keys)| == EdgeCount(g, keys)
  {
    if |keys| > 0 {
      EdgeLinesCount(g, keys[..|keys| - 1]);
    }
  }

  /** Every edge of a listed key has its line (completeness). */
  lemma {:induction false} EdgeHasLine(g: Graph, keys: seq<string>, id: string, d: string)
    requires forall k :: k in keys ==> k in g.values
    requires id in keys && d in g.values[id]
    ensures EdgeLine(id, d) in EdgeLinesFor(g, keys)
  {
    var last := keys[|keys| - 1];
    if id == last {
      var i :| 0 <= i < |g.values[id]| && g.values[id][i] == d;
      assert EdgeLinesOf(last, g.values[last])[i] == EdgeLine(id, d);
    } else {
      assert id in keys[..|keys| - 1] by {
        var i :| 0 <= i < |keys| && keys[i] == id;
        assert keys[..|keys| - 1][i] == id;
      }
      EdgeHasLine(g, keys[..|keys| - 1], id, d);
    }
  }

  /** Every edge line stands for an edge of a listed key (soundness). */
  lemma {:induction false} LineHasEdge(g: Graph, keys: seq<string>, line: string)
    requires forall k :: k in keys ==> k in g.values
    requires line in EdgeLinesFor(g, keys)
    ensures exists id, d :: id in keys && d in g.values[id] && line == EdgeLine(id, d)
  {
    var init := keys[..|keys| - 1];
    var last := keys[|keys| - 1];
    if line in EdgeLinesFor(g, init) {
      LineHasEdge(g, init, line);
      var id, d :| id in init && d in g.values[id] && line == EdgeLine(id, d);
      assert id in keys;
    } else {
      var i :| 0 <= i < |g.values[last]| && EdgeLinesOf(last, g.values[last])[i] == line;
      assert g.values[last][i] in g.values[last];
    }
  }

  /** The DOT text has one line per edge plus the header and the closing
      brace; its first line is "digraph {" and its last is "}", provided no ID
      contains a newline. */
  lemma DotTextLines(g: Graph)
    requires g.Valid()
    requires forall k :: k in g.keys ==> '\n' !in k
    requires forall k, d :: k in g.keys && d in g.values[k] ==> '\n' !in d
    ensures Split(DotText(g), '\n') == DotLines(g)
    ensures |Split(DotText(g), '\n')| == 2 + EdgeCount(g, g.keys)
    ensures Split(DotText(g), '\n')[0] == DIGRAPH_OPEN
    ensures Split(DotText(g), '\n')[1 + EdgeCount(g, g.keys)] == DIGRAPH_CLOSE
  {
    var lines := DotLines(g);
    forall i | 0 <= i < |lines| ensures '\n' !in lines[i] {
      if 0 < i < |lines| - 1 {
        var line := lines[i];
        assert line in EdgeLinesFor(g, g.keys);
        LineHasEdge(g, g.keys, line);
        var id, d :| id in g.keys && d in g.values[id] && line == EdgeLine(id, d);
        assert line == "  \"" + id + "\" -> \"" + d + "\"";
      }
    }
    SplitJoin(lines, '\n');
    EdgeLinesCount(g, g.keys);
  }

  /** The graph {main: [foo], foo: [bar], bar: []}: one line per edge, and
      none for `bar`, whose list is empty. */
  lemma SimpleGraph()
    ensures var g := Record(["main", "foo", "bar"], map["main" := ["foo"], "foo" := ["bar"], "bar" := []]);
      g.Valid() &&
      DotLines(g) == [DIGRAPH_OPEN, EdgeLine("main", "foo"), EdgeLine("foo", "bar"), DIGRAPH_CLOSE]
  {
    var g := Record(["main", "foo", "bar"], map["main" := ["foo"], "foo" := ["bar"], "bar" := []]);
    assert g.keys[..2] == ["main", "foo"];
    assert g.keys[..2][..1] == ["main"];
    assert g.keys[..2][..1][..0] == [];
    assert EdgeLinesOf("main", ["foo"]) == [EdgeLine("main", "foo")];
    assert EdgeLinesOf("foo", ["bar"]) == [EdgeLine("foo", "bar")];
    assert EdgeLinesOf("bar", []) == [];
    assert EdgeLinesFor(g, ["main"]) == [EdgeLine("main", "foo")];
    assert EdgeLinesFor(g, ["main", "foo"]) == [EdgeLine("main", "foo"), EdgeLine("foo", "bar")];
    assert EdgeLinesFor(g, g.keys) == EdgeLinesFor(g, ["main", "foo"]);
  }
}
